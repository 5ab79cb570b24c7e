/** frontend/src/components/GazeTracker.tsx: the gaze sample filter and
    history, and the calibration sequence. Calibration shows one dot per
    calibration point; a dot is removed either by a click (the next dot then
    follows after a short delay) or by its own timeout, and after the last
    point calibration ends and the completion callback fires.

    The WebGazer library, the dot positions on screen (floating-point layout)
    and the drawing are not modelled; the timers are explicit events, and a
    dot is identified by the serial number of its creation, since the timeout
    of a dot checks whether that very dot is still in the page. */
module GazeTracker {
  import opened Strings

  /** A gaze prediction `data`; None for `null`. Coordinates are numbers. */
  type Sample = Option<(real, real)>

  /** The listener's guard `data && data.x && data.y`: a zero coordinate is falsy. */
  predicate Accepted(data: Sample)
    ensures Accepted(data) ==> data.Some?
    ensures data.Some? && (data.value.0 == 0.0 || data.value.1 == 0.0) ==> !Accepted(data)
  {
    data.Some? && data.value.0 != 0.0 && data.value.1 != 0.0
  }

  /** The calibration dot in the page: its creation serial and the index of its point. */
  datatype Dot = Dot(serial: nat, index: nat)

  /** The text of the calibration button. */
  function ButtonLabel(calibrating: bool, current: nat, total: nat): (r: string)
    ensures calibrating ==> StartsWith(r, "Calibrating (") && r[|r| - 1] == ')'
  {
    if calibrating then "Calibrating (" + NatToString(current + 1) + "/" + NatToString(total) + ")"
    else "Start Calibration"
  }

  /** While calibrating, the label reads back as step `current + 1` of
      `total`: the step's digits run from position 13 up to the slash, and
      the number of points from the slash to the closing parenthesis. */
  lemma ButtonLabelShowsStep(current: nat, total: nat)
    ensures var r := ButtonLabel(true, current, total);
      var k := 13 + |NatToString(current + 1)|;
      k < |r| - 1 && r[k] == '/'
      && ParseDigits(r[13..k]) == current + 1
      && ParseDigits(r[k + 1..|r| - 1]) == total
  {
    var r := ButtonLabel(true, current, total);
    var k := 13 + |NatToString(current + 1)|;
    NatToStringRoundTrip(current + 1);
    NatToStringRoundTrip(total);
    assert r[13..k] == NatToString(current + 1);
    assert r[k + 1..|r| - 1] == NatToString(total);
  }

  /** The button text with the step clamped to the number of points. */
  function IntendedButtonLabel(calibrating: bool, current: nat, total: nat): string {
    if calibrating then "Calibrating (" + NatToString(Min(current + 1, total)) + "/" + NatToString(total) + ")"
    else "Start Calibration"
  }

  /** The step the corrected label shows lies in 1..total in every state the
      tracker can be in while calibrating (the index ranges over 0..total). */
  lemma IntendedStepInRange(current: nat, total: nat)
    requires 0 < total && current <= total
    ensures var step := Min(current + 1, total);
      1 <= step <= total
      && IntendedButtonLabel(true, current, total) == "Calibrating (" + NatToString(step) + "/" + NatToString(total) + ")"
      && (current < total ==> IntendedButtonLabel(true, current, total) == ButtonLabel(true, current, total))
  {
  }

  class Tracker {
    /** `calibrationPoints.length`. */
    const total: nat
    var ready: bool
    var calibrating: bool
    var current: nat
    var dot: Option<Dot>
    /** The delayed `showCalibrationPoint(index + 1)` that a click schedules. */
    var pending: Option<nat>
    var nextSerial: nat
    var position: Sample
    var history: seq<(real, real)>

    /** Outside calibration the index is 0 and there is no dot and no
        scheduled point. During calibration exactly one of the two exists: the
        dot of the current point, or the point about to be shown, which is the
        current index (after a click on the last dot, that index is `total`). */
    ghost predicate Valid()
      reads this
    {
      && (!calibrating ==> current == 0 && dot.None? && pending.None?)
      && (calibrating ==> ready && (dot.Some? <==> pending.None?))
      && (dot.Some? ==> dot.value.index == current < total && dot.value.serial < nextSerial)
      && (pending.Some? ==> pending.value == current && 0 < current <= total)
    }

    constructor(total: nat)
      ensures Valid()
      ensures this.total == total && !ready && !calibrating && current == 0
      ensures dot.None? && pending.None? && position.None? && history == []
    {
      this.total := total;
      ready := false;
      calibrating := false;
      current := 0;
      dot := None;
      pending := None;
      nextSerial := 0;
      position := None;
      history := [];
    }

    /** `initializeWebGazer` has succeeded. */
    method WebGazerReady()
      requires Valid()
      modifies this
      ensures Valid()
      ensures ready
      ensures calibrating == old(calibrating) && current == old(current) && dot == old(dot) && pending == old(pending)
      ensures nextSerial == old(nextSerial) && position == old(position) && history == old(history)
    {
      ready := true;
    }

    /** The gaze listener; `reported` tells whether `onGazeUpdate` is called. */
    method GazeSample(data: Sample) returns (reported: bool)
      requires Valid()
      modifies this
      ensures Valid()
      ensures reported <==> Accepted(data)
      ensures Accepted(data) ==> position == data && history == old(history) + [data.value]
      ensures !Accepted(data) ==> position == old(position) && history == old(history)
      ensures ready == old(ready) && calibrating == old(calibrating) && current == old(current)
      ensures dot == old(dot) && pending == old(pending) && nextSerial == old(nextSerial)
    {
      if data.Some? && data.value.0 != 0.0 && data.value.1 != 0.0 {
        position := data;
        history := history + [data.value];
        return true;
      }
      return false;
    }

    /** "Clear Heatmap". */
    method ClearHistory()
      requires Valid()
      modifies this
      ensures Valid()
      ensures history == []
      ensures ready == old(ready) && calibrating == old(calibrating) && current == old(current)
      ensures dot == old(dot) && pending == old(pending) && nextSerial == old(nextSerial) && position == old(position)
    {
      history := [];
    }

    /** `showCalibrationPoint(index)`, called once the index has been set to
        `index`; `completed` tells whether `onCalibrationComplete` fires. */
    method ShowCalibrationPoint(index: nat) returns (completed: bool)
      requires calibrating && ready && dot.None? && pending.None? && current == index <= total
      modifies this
      ensures Valid()
      ensures completed <==> index == total
      ensures index < total ==> calibrating && current == index && dot == Some(Dot(old(nextSerial), index)) && nextSerial == old(nextSerial) + 1
      ensures index == total ==> !calibrating && current == 0 && dot.None? && nextSerial == old(nextSerial)
      ensures pending.None? && ready
      ensures position == old(position) && history == old(history)
    {
      if index >= total {
        calibrating := false;
        current := 0;
        return true;
      }
      dot := Some(Dot(nextSerial, index));
      nextSerial := nextSerial + 1;
      return false;
    }

    /** `startCalibration`: a no-op unless the tracker is ready and not
        already calibrating; otherwise calibration starts at the first point. */
    method StartCalibration() returns (completed: bool)
      requires Valid()
      modifies this
      ensures Valid()
      ensures !old(ready) || old(calibrating) ==>
              !completed && calibrating == old(calibrating)
              && current == old(current) && dot == old(dot) && pending == old(pending) && nextSerial == old(nextSerial)
      ensures old(ready) && !old(calibrating) && total > 0 ==>
              !completed && calibrating && current == 0 && dot == Some(Dot(old(nextSerial), 0))
      ensures old(ready) && !old(calibrating) && total == 0 ==> completed && !calibrating && current == 0
      ensures ready == old(ready) && position == old(position) && history == old(history)
    {
      if !ready || calibrating {
        return false;
      }
      calibrating := true;
      current := 0;
      completed := ShowCalibrationPoint(0);
    }

    /** A click on the dot: the dot goes, the index advances by one, and the
        next point is scheduled. */
    method ClickDot()
      requires Valid() && dot.Some?
      modifies this
      ensures Valid()
      ensures current == old(current) + 1 && dot.None? && pending == Some(current)
      ensures calibrating && ready == old(ready) && nextSerial == old(nextSerial)
      ensures position == old(position) && history == old(history)
    {
      current := dot.value.index + 1;
      pending := Some(current);
      dot := None;
    }

    /** The delay after a click has passed. */
    method PendingFires() returns (completed: bool)
      requires Valid() && pending.Some?
      modifies this
      ensures Valid()
      ensures completed <==> old(current) == total
      ensures old(current) < total ==> calibrating && current == old(current) && dot == Some(Dot(old(nextSerial), current))
      ensures old(current) == total ==> !calibrating && current == 0 && dot.None?
      ensures pending.None? && ready == old(ready) && position == old(position) && history == old(history)
    {
      var index := pending.value;
      pending := None;
      completed := ShowCalibrationPoint(index);
    }

    /** The timeout of the dot with the given serial. It advances only while
        that dot is still in the page, so a dot that was clicked (or whose
        calibration is over) is never advanced past a second time. */
    method TimeoutFires(serial: nat) returns (completed: bool)
      requires Valid()
      modifies this
      ensures Valid()
      ensures old(dot) == None || old(dot).value.serial != serial ==>
              !completed && calibrating == old(calibrating) && current == old(current) && dot == old(dot)
              && pending == old(pending) && nextSerial == old(nextSerial)
      ensures old(dot).Some? && old(dot).value.serial == serial && old(current) + 1 < total ==>
              !completed && calibrating && current == old(current) + 1 && dot == Some(Dot(old(nextSerial), current))
      ensures old(dot).Some? && old(dot).value.serial == serial && old(current) + 1 == total ==>
              completed && !calibrating && current == 0 && dot.None?
      ensures ready == old(ready) && position == old(position) && history == old(history)
    {
      if dot.None? || dot.value.serial != serial {
        return false;
      }
      var index := dot.value.index;
      dot := None;
      current := index + 1;
      completed := ShowCalibrationPoint(index + 1);
    }

    /** The button text. */
    function Label(): string
      reads this
    {
      ButtonLabel(calibrating, current, total)
    }
  }

  /** As written, between the click on the last dot and the end of
      calibration the button reads "Calibrating (2/1)" for a single point:
      one step beyond the number of points. */
  method LastClickOverruns() returns (text: string)
    ensures text == "Calibrating (" + "2" + "/" + "1" + ")"
  {
    var t := new Tracker(1);
    t.WebGazerReady();
    var completed := t.StartCalibration();
    t.ClickDot();
    text := t.Label();
    assert t.calibrating && t.current == 1;
    assert NatToString(2) == "2" && NatToString(1) == "1";
  }
}
