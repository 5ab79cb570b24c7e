/** eyetrack/app.py: a gaze heatmap over the first page of a PDF. While
    tracking, every gaze point that falls on the page adds one to its cell;
    "Show Hot Content" finds the hottest cell and the word whose box centre
    is nearest to it.

    The webcam, the gaze estimator and the page rendering are inputs (the
    frames, each with the gaze point it gave, and the words of the page); the
    coordinates are taken as exact reals, and the `float32` counts as
    integers. */
module Heatmap {
  import opened Strings

  const NoGazeMessage := "No gaze data collected yet."
  const NoTextMessage := "No text found near the hot area."

  /** Python's `int(v)` of a float: truncation toward zero. */
  function Trunc(v: real): (r: int)
    ensures v >= 0.0 ==> 0 <= r
    ensures v <= 0.0 ==> r <= 0
  {
    if v >= 0.0 then v.Floor else -((-v).Floor)
  }

  /** Truncation keeps points just left of or above the page (down to -1,
      exclusive) on its first column or row: `int(-0.5)` is 0. */
  lemma TruncTowardZero(v: real)
    ensures v >= 0.0 ==> Trunc(v) as real <= v < Trunc(v) as real + 1.0
    ensures v < 0.0 ==> Trunc(v) as real - 1.0 < v <= Trunc(v) as real
    ensures -1.0 < v < 1.0 ==> Trunc(v) == 0
  {
  }

  /** One pass of the tracking loop: the camera gave no frame, or a frame
      with the gaze point the estimator gave (if any), and whether "Stop Eye
      Tracking" was pressed in that pass. */
  datatype Frame = NoFrame | Frame(point: Option<(real, real)>, stop: bool)

  /** The frame's point lands on cell (x, y) of a width x height page. */
  predicate Hits(f: Frame, x: int, y: int, width: nat, height: nat) {
    f.Frame? && f.point.Some?
    && var (px, py) := (Trunc(f.point.value.0), Trunc(f.point.value.1));
    0 <= px < width && 0 <= py < height && px == x && py == y
  }

  /** How many of the frames land on cell (x, y). */
  function HitCount(frames: seq<Frame>, x: int, y: int, width: nat, height: nat): nat {
    if frames == [] then 0
    else HitCount(frames[..|frames| - 1], x, y, width, height) + (if Hits(frames[|frames| - 1], x, y, width, height) then 1 else 0)
  }

  /** The frames the loop handles: up to the first missing frame (not
      included) or the first pass with the stop button (included). */
  function Handled(frames: seq<Frame>): (r: seq<Frame>)
    ensures |r| <= |frames| && r == frames[..|r|]
    ensures forall i :: 0 <= i < |r| ==> r[i].Frame?
    ensures forall i :: 0 <= i < |r| - 1 ==> !r[i].stop
    ensures |r| == |frames| || frames[|r|].NoFrame? || (r != [] && r[|r| - 1].stop)
  {
    if frames == [] || frames[0].NoFrame? then []
    else if frames[0].stop then [frames[0]]
    else [frames[0]] + Handled(frames[1..])
  }

  /** Counting over two stretches of frames adds up. */
  lemma {:induction false} HitCountAppend(a: seq<Frame>, b: seq<Frame>, x: int, y: int, width: nat, height: nat)
    ensures HitCount(a + b, x, y, width, height) == HitCount(a, x, y, width, height) + HitCount(b, x, y, width, height)
    decreases |b|
  {
    if b == [] {
      assert a + b == a;
    } else {
      var b' := b[..|b| - 1];
      assert (a + b)[..|a + b| - 1] == a + b';
      HitCountAppend(a, b', x, y, width, height);
    }
  }

  /** A cell off the page is never hit, and no cell more often than there are frames. */
  lemma {:induction false} HitCountBounds(frames: seq<Frame>, x: int, y: int, width: nat, height: nat)
    ensures HitCount(frames, x, y, width, height) <= |frames|
    ensures !(0 <= x < width && 0 <= y < height) ==> HitCount(frames, x, y, width, height) == 0
  {
    if frames != [] {
      HitCountBounds(frames[..|frames| - 1], x, y, width, height);
    }
  }

  /** A page's words: the box (x0, y0, x1, y1) and the word. */
  datatype Word = Word(x0: real, y0: real, x1: real, y1: real, text: string)

  /** The squared distance from the centre of w's box to (x, y). */
  function Dist(w: Word, x: int, y: int): real {
    var wx := (w.x0 + w.x1) / 2.0;
    var wy := (w.y0 + w.y1) / 2.0;
    (wx - x as real) * (wx - x as real) + (wy - y as real) * (wy - y as real)
  }

  /** words[k] is the first word at the least distance from (x, y). */
  predicate ClosestAt(words: seq<Word>, k: int, x: int, y: int) {
    0 <= k < |words|
    && (forall i :: 0 <= i < |words| ==> Dist(words[k], x, y) <= Dist(words[i], x, y))
    && (forall i :: 0 <= i < k ==> Dist(words[i], x, y) > Dist(words[k], x, y))
  }

  /** There is only one such word. */
  lemma ClosestUnique(words: seq<Word>, k: int, k': int, x: int, y: int)
    requires ClosestAt(words, k, x, y) && ClosestAt(words, k', x, y)
    ensures k == k'
  {
    var d, d' := Dist(words[k], x, y), Dist(words[k'], x, y);
    assert k < k' ==> d > d';
    assert k' < k ==> d' > d;
  }

  /** The loop over the words with `min_dist` starting at infinity (None) and
      the strict `<`: the first word at the least distance. */
  method ClosestWord(words: seq<Word>, x: int, y: int) returns (closest: Option<nat>)
    ensures closest.None? <==> words == []
    ensures closest.Some? ==> ClosestAt(words, closest.value, x, y)
  {
    var minDist: Option<real> := None;
    closest := None;
    for k := 0 to |words|
      invariant closest.None? <==> k == 0
      invariant minDist.Some? <==> closest.Some?
      invariant closest.Some? ==> closest.value < k && minDist.value == Dist(words[closest.value], x, y)
      invariant closest.Some? ==> forall i :: 0 <= i < k ==> Dist(words[closest.value], x, y) <= Dist(words[i], x, y)
      invariant closest.Some? ==> forall i :: 0 <= i < closest.value ==> Dist(words[i], x, y) > Dist(words[closest.value], x, y)
    {
      var dist := Dist(words[k], x, y);
      if minDist.None? || dist < minDist.value {
        minDist := Some(dist);
        closest := Some(k);
      }
    }
  }

  /** The cell (i, j) comes before the cell (i', j') in row-major order. */
  predicate Before(i: int, j: int, i': int, j': int) {
    i < i' || (i == i' && j < j')
  }

  /** What "Show Hot Content" reports. */
  datatype Report = NoGaze | NoText | Hot(word: string)

  /** The session's heatmap (`st.session_state['heatmap']`, rows by columns)
      and the `tracking` flag, over a page of the given size. */
  class GazeMap {
    const width: nat
    const height: nat
    var cells: array2<int>
    var tracking: bool

    ghost predicate Valid()
      reads this
    {
      cells.Length0 == height && cells.Length1 == width
    }

    /** The session's first run: not tracking, all cells zero. */
    constructor(width: nat, height: nat)
      ensures Valid() && this.width == width && this.height == height && !tracking
      ensures forall i, j :: 0 <= i < height && 0 <= j < width ==> cells[i, j] == 0
    {
      this.width := width;
      this.height := height;
      cells := new int[height, width]((i, j) => 0);
      tracking := false;
    }

    /** "Start Eye Tracking": tracking, on a new all-zero heatmap of page size. */
    method StartTracking()
      modifies this
      ensures Valid() && tracking && fresh(cells)
      ensures forall i, j :: 0 <= i < height && 0 <= j < width ==> cells[i, j] == 0
    {
      tracking := true;
      cells := new int[height, width]((i, j) => 0);
    }

    /** A gaze point: `heatmap[y, x] += 1` only for a point on the page;
        every other cell is untouched, and a point off the page changes nothing. */
    method Record(point: (real, real))
      requires Valid()
      modifies cells
      ensures forall i, j :: 0 <= i < height && 0 <= j < width ==>
        cells[i, j] == old(cells[i, j]) + (if Hits(Frame(Some(point), false), j, i, width, height) then 1 else 0)
    {
      var x, y := Trunc(point.0), Trunc(point.1);
      if 0 <= x < width && 0 <= y < height {
        cells[y, x] := cells[y, x] + 1;
      }
    }

    /** The tracking loop over the frames the camera gives. It ends at a
        missing frame (an error; `tracking` stays set) or after the pass in
        which stop is pressed (`tracking` is cleared); the point of every
        handled frame has been recorded. */
    method Track(frames: seq<Frame>) returns (webcamError: bool)
      requires Valid() && tracking
      modifies this, cells
      ensures Valid() && cells == old(cells)
      ensures forall i, j :: 0 <= i < height && 0 <= j < width ==>
        cells[i, j] == old(cells[i, j]) + HitCount(Handled(frames), j, i, width, height)
      ensures !tracking <==> Handled(frames) != [] && Handled(frames)[|Handled(frames)| - 1].stop
      ensures webcamError <==> tracking && |Handled(frames)| < |frames|
      ensures webcamError ==> frames[|Handled(frames)|].NoFrame?
    {
      ghost var done := Handled(frames);
      var k := 0;
      webcamError := false;
      while tracking && k < |frames|
        invariant Valid() && cells == old(cells)
        invariant 0 <= k <= |done| && done[..k] == frames[..k]
        invariant forall i, j :: 0 <= i < height && 0 <= j < width ==>
          cells[i, j] == old(cells[i, j]) + HitCount(frames[..k], j, i, width, height)
        invariant !webcamError
        invariant !tracking <==> k > 0 && frames[k - 1].stop
        decreases |frames| - k
      {
        if frames[k].NoFrame? {
          webcamError := true;
          break;
        }
        assert k < |done|;
        if frames[k].point.Some? {
          Record(frames[k].point.value);
        }
        assert frames[..k + 1][..k] == frames[..k];
        if frames[k].stop {
          tracking := false;
        }
        k := k + 1;
      }
      assert k == |done|;
      assert done == frames[..k];
    }

    /** Cell (hy, hx) holds the largest count, and every cell before it in
        row-major order a smaller one. */
    ghost predicate IsFirstMax(hy: int, hx: int)
      reads this, cells
      requires Valid()
    {
      0 <= hy < height && 0 <= hx < width
      && (forall i, j :: 0 <= i < height && 0 <= j < width ==> cells[i, j] <= cells[hy, hx])
      && (forall i, j :: 0 <= i < height && 0 <= j < width && Before(i, j, hy, hx) ==> cells[i, j] < cells[hy, hx])
    }

    /** There is only one such cell. */
    lemma FirstMaxUnique(hy: int, hx: int, hy': int, hx': int)
      requires Valid() && IsFirstMax(hy, hx) && IsFirstMax(hy', hx')
      ensures hy == hy' && hx == hx'
    {
      var a, b := cells[hy, hx], cells[hy', hx'];
      assert Before(hy, hx, hy', hx') ==> a < b;
      assert Before(hy', hx', hy, hx) ==> b < a;
    }

    /** `np.argmax` followed by `np.unravel_index`: the first cell, in
        row-major order, holding the largest count. An empty heatmap makes
        numpy raise, so the page is not empty. */
    method Argmax() returns (hy: nat, hx: nat)
      requires Valid() && width > 0 && height > 0
      ensures IsFirstMax(hy, hx)
    {
      hy, hx := 0, 0;
      for i := 0 to height
        invariant hy < height && hx < width
        invariant i == 0 ==> hy == 0 && hx == 0
        invariant forall r, c :: 0 <= r < i && 0 <= c < width ==> cells[r, c] <= cells[hy, hx]
        invariant forall r, c :: 0 <= r < height && 0 <= c < width && Before(r, c, hy, hx) ==> cells[r, c] < cells[hy, hx]
      {
        for j := 0 to width
          invariant hy < height && hx < width
          invariant i == 0 && j == 0 ==> hy == 0 && hx == 0
          invariant forall r, c :: 0 <= r < i && 0 <= c < width ==> cells[r, c] <= cells[hy, hx]
          invariant forall c :: 0 <= c < j ==> cells[i, c] <= cells[hy, hx]
          invariant forall r, c :: 0 <= r < height && 0 <= c < width && Before(r, c, hy, hx) ==> cells[r, c] < cells[hy, hx]
        {
          if cells[i, j] > cells[hy, hx] {
            hy, hx := i, j;
          }
        }
      }
    }

    /** "Show Hot Content": tracking stops; an all-zero heatmap reports that no
        gaze was collected, no words that no text was found, and otherwise the
        word closest to the hottest cell is reported. */
    method ShowHotContent(words: seq<Word>) returns (report: Report)
      requires Valid() && width > 0 && height > 0
      modifies this
      ensures Valid() && !tracking && cells == old(cells)
      ensures report.NoGaze? <==> forall i, j :: 0 <= i < height && 0 <= j < width ==> cells[i, j] <= 0
      ensures report.NoText? <==> !report.NoGaze? && words == []
      ensures report.Hot? ==> exists hy, hx, k :: IsFirstMax(hy, hx) && ClosestAt(words, k, hx, hy) && words[k].text == report.word
    {
      tracking := false;
      var hy, hx := Argmax();
      if cells[hy, hx] <= 0 {
        return NoGaze;
      }
      var closest := ClosestWord(words, hx, hy);
      if closest.None? {
        return NoText;
      }
      return Hot(words[closest.value].text);
    }
  }

}
