/** The recent-hover history that TextExtractor.tsx and both PaperViewer.tsx
    files keep: a list of items, oldest first, each with the text, where it
    came from and when it was last seen. The three components share the
    same list rules, which this module states once:

    - `slice(-m)` of JavaScript, which keeps the last m items when m > 0,
      everything when m == 0 and drops the first -m when m < 0;
    - the deduplicating push: a repeat of the newest text only refreshes the
      newest item's timestamp, new text is appended and the list cut to the
      newest `maxHistoryItems`;
    - the periodic cleanup: keep the items younger than the history
      duration, then the newest `maxHistoryItems` of those. */
module HoverHistory {
  import opened Strings

  datatype Item<E> = Item(text: string, source: E, timestamp: int)

  /** `s.slice(start)` for a start index that may be negative. */
  function Slice<T>(s: seq<T>, start: int): (r: seq<T>)
    ensures |r| <= |s| && r == s[|s| - |r|..]
    ensures start >= 0 ==> |r| == Max(|s| - start, 0)
    ensures start < 0 ==> |r| == Min(-start, |s|)
  {
    var from := if start < 0 then Max(|s| + start, 0) else Min(start, |s|);
    s[from..]
  }

  /** `s.slice(-m)`. */
  function TakeLast<T>(s: seq<T>, m: int): (r: seq<T>)
    ensures |r| <= |s| && r == s[|s| - |r|..]
    ensures m >= 0 && s != [] ==> r != []
  {
    Slice(s, -m)
  }

  /** For a positive bound the newest min(m, |s|) items are kept, so the
      result never holds more than m items and is all of s when s is short
      enough; for m == 0 (`slice(-0)` is `slice(0)`) nothing is removed. */
  lemma TakeLastBound<T>(s: seq<T>, m: int)
    ensures m > 0 ==> |TakeLast(s, m)| == Min(m, |s|) <= m
    ensures m > 0 && |s| <= m ==> TakeLast(s, m) == s
    ensures m == 0 ==> TakeLast(s, m) == s
  {
  }

  /** A positive bound keeps the newest item. */
  lemma TakeLastKeepsNewest<T>(s: seq<T>, m: int)
    requires s != [] && m > 0
    ensures var r := TakeLast(s, m); r != [] && r[|r| - 1] == s[|s| - 1]
  {
    TakeLastBound(s, m);
  }

  /** A bound of zero does not bound the history: every push keeps all items. */
  lemma {:induction false} ZeroBoundKeepsEverything<E>(items: seq<Item<E>>, item: Item<E>)
    requires !IsRepeat(items, item.text)
    ensures DedupPush(items, item, 0) == items + [item]
  {
    TakeLastBound(items + [item], 0);
  }

  /** The text repeats the newest item's text. */
  predicate IsRepeat<E>(items: seq<Item<E>>, text: string) {
    |items| > 0 && items[|items| - 1].text == text
  }

  /** The updater passed to `setHoveredItems` when new text has been extracted. */
  function DedupPush<E>(items: seq<Item<E>>, item: Item<E>, max: int): (r: seq<Item<E>>)
    ensures |r| <= |items| + 1
    ensures IsRepeat(items, item.text) ==> |r| == |items|
    ensures IsRepeat(items, item.text) || max >= 0 ==>
              r != [] && r[|r| - 1].text == item.text && r[|r| - 1].timestamp == item.timestamp
  {
    if IsRepeat(items, item.text) then
      items[..|items| - 1] + [items[|items| - 1].(timestamp := item.timestamp)]
    else
      TakeLast(items + [item], max)
  }

  /** A repeat of the newest text keeps the length and every other item and
      gives the newest item the new timestamp, with its text and source unchanged. */
  lemma DedupPushRefreshes<E>(items: seq<Item<E>>, item: Item<E>, max: int)
    requires IsRepeat(items, item.text)
    ensures var r := DedupPush(items, item, max);
      && |r| == |items|
      && r[..|r| - 1] == items[..|items| - 1]
      && r[|r| - 1].text == items[|items| - 1].text == item.text
      && r[|r| - 1].source == items[|items| - 1].source
      && r[|r| - 1].timestamp == item.timestamp
  {
    var r := DedupPush(items, item, max);
    assert r[..|r| - 1] == items[..|items| - 1];
  }

  /** New text becomes the newest item and, for a positive bound, at most
      `max` items remain: the newest ones of the old list followed by it. */
  lemma DedupPushAppends<E>(items: seq<Item<E>>, item: Item<E>, max: int)
    requires !IsRepeat(items, item.text) && max > 0
    ensures var r := DedupPush(items, item, max);
      && |r| == Min(|items| + 1, max)
      && r[|r| - 1] == item
      && r[..|r| - 1] == items[|items| - (|r| - 1)..]
  {
    AppendThenCut(items, item, max);
  }

  /** `[...s, x].slice(-m)` for a positive m: x last, after the newest
      min(|s|, m - 1) elements of s. */
  lemma AppendThenCut<T>(s: seq<T>, x: T, m: int)
    requires m > 0
    ensures var r := TakeLast(s + [x], m);
      && |r| == Min(|s| + 1, m)
      && r[|r| - 1] == x
      && r[..|r| - 1] == s[|s| - (|r| - 1)..]
  {
    var t := s + [x];
    var r := TakeLast(t, m);
    TakeLastBound(t, m);
    assert r == t[|t| - |r|..];
    assert r[..|r| - 1] == s[|s| - (|r| - 1)..];
  }

  /** No two neighbouring items carry the same text. */
  predicate NoAdjacentRepeats<E>(items: seq<Item<E>>) {
    forall i :: 0 < i < |items| ==> items[i - 1].text != items[i].text
  }

  /** The items with `now - timestamp < duration`, in their order. */
  function Young<E>(items: seq<Item<E>>, now: int, duration: int): (r: seq<Item<E>>)
    ensures |r| <= |items|
  {
    if items == [] then []
    else
      var last := items[|items| - 1];
      Young(items[..|items| - 1], now, duration) + (if now - last.timestamp < duration then [last] else [])
  }

  /** Filtering distributes over concatenation, so the kept items stay in their original order. */
  lemma {:induction false} YoungAppend<E>(a: seq<Item<E>>, b: seq<Item<E>>, now: int, duration: int)
    ensures Young(a + b, now, duration) == Young(a, now, duration) + Young(b, now, duration)
    decreases |b|
  {
    if b != [] {
      var init := b[..|b| - 1];
      assert (a + b)[..|a + b| - 1] == a + init;
      YoungAppend(a, init, now, duration);
    } else {
      assert a + b == a;
    }
  }

  /** Exactly the young items are kept. */
  lemma {:induction false} YoungMembers<E>(items: seq<Item<E>>, now: int, duration: int, x: Item<E>)
    ensures x in Young(items, now, duration) <==> x in items && now - x.timestamp < duration
  {
    if items != [] {
      var init := items[..|items| - 1];
      YoungMembers(init, now, duration, x);
      assert items == init + [items[|items| - 1]];
    }
  }

  /** Filtering a list of young items changes nothing. */
  lemma {:induction false} YoungOfYoung<E>(items: seq<Item<E>>, now: int, duration: int)
    requires AllYoung(items, now, duration)
    ensures Young(items, now, duration) == items
  {
    if items != [] {
      YoungOfYoung(items[..|items| - 1], now, duration);
    }
  }

  /** Every item is younger than `duration` at time `now`. */
  predicate AllYoung<E>(items: seq<Item<E>>, now: int, duration: int) {
    forall i :: 0 <= i < |items| ==> now - items[i].timestamp < duration
  }

  lemma {:induction false} YoungAllYoung<E>(items: seq<Item<E>>, now: int, duration: int)
    ensures AllYoung(Young(items, now, duration), now, duration)
  {
    if items != [] {
      var init := items[..|items| - 1];
      var last := items[|items| - 1];
      YoungAllYoung(init, now, duration);
      var y := Young(init, now, duration);
      var r := Young(items, now, duration);
      if now - last.timestamp < duration {
        assert r == y + [last];
        forall i | 0 <= i < |r| ensures now - r[i].timestamp < duration {
          if i < |y| { assert r[i] == y[i]; }
        }
      } else {
        assert r == y;
      }
    }
  }

  /** `cleanupHistory`'s updater. */
  function Cleanup<E>(items: seq<Item<E>>, now: int, duration: int, max: int): (r: seq<Item<E>>)
    ensures |r| <= |items|
    ensures AllYoung(r, now, duration)
  {
    var y := Young(items, now, duration);
    YoungAllYoung(items, now, duration);
    var r := TakeLast(y, max);
    assert forall i :: 0 <= i < |r| ==> r[i] == y[|y| - |r| + i];
    r
  }

  /** The cleanup keeps only young items, the newest of them and in their
      original order, and for a positive bound at most `max` of them. */
  lemma CleanupKeeps<E>(items: seq<Item<E>>, now: int, duration: int, max: int)
    ensures var r := Cleanup(items, now, duration, max);
      var y := Young(items, now, duration);
      && r == y[|y| - |r|..]
      && (forall i :: 0 <= i < |r| ==> now - r[i].timestamp < duration)
      && (max > 0 ==> |r| == Min(max, |y|))
  {
    var y := Young(items, now, duration);
    var r := Cleanup(items, now, duration, max);
    TakeLastBound(y, max);
  }

  /** Running the cleanup twice at the same instant is the same as running it once. */
  lemma CleanupIdempotent<E>(items: seq<Item<E>>, now: int, duration: int, max: int)
    requires max >= 0
    ensures Cleanup(Cleanup(items, now, duration, max), now, duration, max) == Cleanup(items, now, duration, max)
  {
    var r := Cleanup(items, now, duration, max);
    CleanupKeeps(items, now, duration, max);
    YoungOfYoung(r, now, duration);
    TakeLastBound(Young(items, now, duration), max);
    TakeLastBound(r, max);
  }

  /** Items are kept oldest first: timestamps never decrease along the list. */
  predicate Chronological<E>(items: seq<Item<E>>) {
    forall i, j :: 0 <= i < j < |items| ==> items[i].timestamp <= items[j].timestamp
  }

  /** What every history of the components satisfies at time `now`: the
      newest `max` items at most (for a positive bound), no text twice in
      a row, oldest first and nothing from the future. */
  predicate Invariant<E>(items: seq<Item<E>>, max: int, now: int) {
    && (max > 0 ==> |items| <= max)
    && NoAdjacentRepeats(items)
    && Chronological(items)
    && (forall i :: 0 <= i < |items| ==> items[i].timestamp <= now)
  }

  /** Dropping items from the front keeps the invariant. */
  lemma SuffixKeepsInvariant<E>(items: seq<Item<E>>, k: nat, max: int, now: int)
    requires k <= |items| && Invariant(items, max, now)
    ensures Invariant(items[k..], max, now)
  {
    var t := items[k..];
    forall i | 0 < i < |t| ensures t[i - 1].text != t[i].text {
      assert t[i - 1] == items[k + i - 1] && t[i] == items[k + i];
    }
    forall i, j | 0 <= i < j < |t| ensures t[i].timestamp <= t[j].timestamp {
      assert t[i] == items[k + i] && t[j] == items[k + j];
    }
    forall i | 0 <= i < |t| ensures t[i].timestamp <= now {
      assert t[i] == items[k + i];
    }
  }

  /** A push at a time no earlier than the last one keeps the invariant,
      whatever the bound. */
  lemma DedupPushKeepsInvariant<E>(items: seq<Item<E>>, item: Item<E>, max: int, now: int)
    requires Invariant(items, max, now) && now <= item.timestamp
    ensures Invariant(DedupPush(items, item, max), max, item.timestamp)
  {
    if IsRepeat(items, item.text) {
      RefreshKeepsInvariant(items, item, max, now);
    } else {
      AppendKeepsInvariant(items, item, max, now);
    }
  }

  lemma RefreshKeepsInvariant<E>(items: seq<Item<E>>, item: Item<E>, max: int, now: int)
    requires Invariant(items, max, now) && now <= item.timestamp && IsRepeat(items, item.text)
    ensures Invariant(DedupPush(items, item, max), max, item.timestamp)
  {
    var r := DedupPush(items, item, max);
    DedupPushRefreshes(items, item, max);
    assert forall i :: 0 <= i < |r| - 1 ==> r[i] == items[i];
  }

  lemma AppendKeepsInvariant<E>(items: seq<Item<E>>, item: Item<E>, max: int, now: int)
    requires Invariant(items, max, now) && now <= item.timestamp && !IsRepeat(items, item.text)
    ensures Invariant(DedupPush(items, item, max), max, item.timestamp)
  {
    var s := items + [item];
    var r := DedupPush(items, item, max);
    ExtendedInvariant(items, item, max, now);
    SuffixKeepsInvariant(s, |s| - |r|, 0, item.timestamp);
    TakeLastBound(s, max);
  }

  /** Before the cut: the new item extends an unbounded history. */
  lemma ExtendedInvariant<E>(items: seq<Item<E>>, item: Item<E>, max: int, now: int)
    requires Invariant(items, max, now) && now <= item.timestamp && !IsRepeat(items, item.text)
    ensures Invariant(items + [item], 0, item.timestamp)
  {
    var s := items + [item];
    forall i | 0 < i < |s| ensures s[i - 1].text != s[i].text {
      assert s[i - 1] == items[i - 1];
      if i < |items| { assert s[i] == items[i]; }
    }
    forall i, j | 0 <= i < j < |s| ensures s[i].timestamp <= s[j].timestamp {
      assert s[i] == items[i];
      if j < |items| { assert s[j] == items[j]; }
    }
    forall i | 0 <= i < |s| ensures s[i].timestamp <= item.timestamp {
      if i < |items| { assert s[i] == items[i]; }
    }
  }

  /** In an oldest-first list the young items are a suffix: the cleanup
      only ever drops items from the front. */
  lemma {:induction false} YoungIsSuffix<E>(items: seq<Item<E>>, now: int, duration: int)
    requires Chronological(items)
    ensures var y := Young(items, now, duration); y == items[|items| - |y|..]
  {
    if items != [] {
      var init := items[..|items| - 1];
      var last := items[|items| - 1];
      assert Chronological(init) by {
        assert forall i :: 0 <= i < |init| ==> init[i] == items[i];
      }
      YoungIsSuffix(init, now, duration);
      var y := Young(init, now, duration);
      if now - last.timestamp >= duration {
        assert forall i :: 0 <= i < |init| ==> init[i].timestamp <= last.timestamp by {
          assert forall i :: 0 <= i < |init| ==> init[i] == items[i];
        }
        YoungNone(init, now, duration, last.timestamp);
        assert Young(items, now, duration) == [];
      } else {
        assert Young(items, now, duration) == y + [last];
        assert y == init[|init| - |y|..];
        assert items[|items| - |y| - 1..] == init[|init| - |y|..] + [last];
      }
    }
  }

  lemma {:induction false} YoungNone<E>(items: seq<Item<E>>, now: int, duration: int, t: int)
    requires now - t >= duration
    requires forall i :: 0 <= i < |items| ==> items[i].timestamp <= t
    ensures Young(items, now, duration) == []
  {
    if items != [] {
      YoungNone(items[..|items| - 1], now, duration, t);
    }
  }

  /** A cleanup at a time no earlier than the history's keeps the invariant. */
  lemma CleanupKeepsInvariant<E>(items: seq<Item<E>>, max: int, now: int, later: int, duration: int)
    requires Invariant(items, max, now) && now <= later
    ensures Invariant(Cleanup(items, later, duration, max), max, later)
  {
    var y := Young(items, later, duration);
    var r := Cleanup(items, later, duration, max);
    YoungIsSuffix(items, later, duration);
    SuffixOfSuffix(items, y, r);
    SuffixLater(items, r, max, now, later);
  }

  lemma SuffixLater<E>(items: seq<Item<E>>, r: seq<Item<E>>, max: int, now: int, later: int)
    requires Invariant(items, max, now) && now <= later
    requires |r| <= |items| && r == items[|items| - |r|..]
    ensures Invariant(r, max, later)
  {
    SuffixKeepsInvariant(items, |items| - |r|, max, now);
    LaterKeepsInvariant(r, max, now, later);
  }

  lemma SuffixOfSuffix<T>(s: seq<T>, y: seq<T>, r: seq<T>)
    requires |y| <= |s| && y == s[|s| - |y|..] && |r| <= |y| && r == y[|y| - |r|..]
    ensures r == s[|s| - |r|..]
  {
    assert forall i :: 0 <= i < |r| ==> r[i] == y[|y| - |r| + i] == s[|s| - |r| + i];
  }

  lemma LaterKeepsInvariant<E>(items: seq<Item<E>>, max: int, now: int, later: int)
    requires Invariant(items, max, now) && now <= later
    ensures Invariant(items, max, later)
  {
  }
}
