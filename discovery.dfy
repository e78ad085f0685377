/**
 * The scan command's bookkeeping: the `deviceFound` callback collects
 * device ids in first-seen order without duplicates until the scan timer
 * sets `isScanningCompleted`; the operator's answer then selects one id,
 * which is saved as `device_id` in the configuration.
 */
module Discovery {
  import opened Wrappers
  import opened JsValues
  import opened Storage

  predicate Distinct(s: seq<string>) {
    forall i, j :: 0 <= i < j < |s| ==> s[i] != s[j]
  }

  /** The effect of one `deviceFound(id)` event on the list of devices. */
  function FoundStep(devices: seq<string>, completed: bool, id: string): (r: seq<string>)
    ensures Distinct(devices) ==> Distinct(r)
    ensures id in devices || completed ==> r == devices
    ensures !completed && id !in devices ==> |r| == |devices| + 1 && r[..|devices|] == devices && r[|devices|] == id
  {
    if completed || id in devices then devices else devices + [id]
  }

  /** The list after a run of events all delivered before the timer fired. */
  function Discovered(events: seq<string>): seq<string>
  {
    if events == [] then []
    else FoundStep(Discovered(events[..|events| - 1]), false, events[|events| - 1])
  }

  /** Position of the first occurrence of `x` in `s`. */
  function FirstIndex(s: seq<string>, x: string): (i: nat)
    requires x in s
    ensures i < |s| && s[i] == x && x !in s[..i]
  {
    if s[0] == x then 0 else 1 + FirstIndex(s[1..], x)
  }

  lemma {:induction false} FirstIndexExtend(s: seq<string>, e: string, x: string)
    requires x in s
    ensures FirstIndex(s + [e], x) == FirstIndex(s, x)
  {
    if s[0] != x {
      assert (s + [e])[1..] == s[1..] + [e];
      FirstIndexExtend(s[1..], e, x);
    }
  }

  lemma {:induction false} FirstIndexOfNew(s: seq<string>, e: string)
    requires e !in s
    ensures FirstIndex(s + [e], e) == |s|
  {
    if s != [] {
      assert (s + [e])[1..] == s[1..] + [e];
      FirstIndexOfNew(s[1..], e);
    }
  }

  lemma DiscoveredSnoc(events: seq<string>, id: string)
    ensures Discovered(events + [id]) == FoundStep(Discovered(events), false, id)
  {
    assert (events + [id])[..|events|] == events;
  }

  /** No id is ever listed twice. */
  lemma {:induction false} DiscoveredDistinct(events: seq<string>)
    ensures Distinct(Discovered(events))
  {
    if events != [] {
      DiscoveredDistinct(events[..|events| - 1]);
    }
  }

  /** Exactly the ids that were reported are listed. */
  lemma {:induction false} DiscoveredMembers(events: seq<string>)
    ensures forall id :: id in Discovered(events) <==> id in events
  {
    if events != [] {
      var n := |events|;
      DiscoveredMembers(events[..n - 1]);
      assert events == events[..n - 1] + [events[n - 1]];
    }
  }

  /** The list is in first-seen order. */
  lemma {:induction false} DiscoveredFirstSeenOrder(events: seq<string>)
    ensures forall i, j :: 0 <= i < j < |Discovered(events)| ==>
      Discovered(events)[i] in events && Discovered(events)[j] in events &&
      FirstIndex(events, Discovered(events)[i]) < FirstIndex(events, Discovered(events)[j])
  {
    if events != [] {
      var n := |events|;
      var prefix, last := events[..n - 1], events[n - 1];
      assert events == prefix + [last];
      var before := Discovered(prefix);
      var after := Discovered(events);
      DiscoveredFirstSeenOrder(prefix);
      DiscoveredMembers(prefix);
      forall i, j | 0 <= i < j < |after|
        ensures after[i] in events && after[j] in events
        ensures FirstIndex(events, after[i]) < FirstIndex(events, after[j])
      {
        assert after[i] == before[i] by {
          assert after[..|before|] == before;
        }
        if j < |before| {
          assert after[j] == before[j] by {
            assert after[..|before|] == before;
          }
          FirstIndexExtend(prefix, last, after[i]);
          FirstIndexExtend(prefix, last, after[j]);
        } else {
          assert last !in prefix && after[j] == last;
          FirstIndexExtend(prefix, last, after[i]);
          FirstIndexOfNew(prefix, last);
        }
      }
    } else {
      assert Discovered(events) == [];
    }
  }

  /** Reporting the same device twice lists it once. */
  lemma SameDeviceTwice(id: string)
    ensures Discovered([id, id]) == [id]
  {
    DiscoveredSnoc([id], id);
    DiscoveredSnoc([], id);
  }

  /** `bluetoothDevices.some(device => device.id === id)` */
  method IsDiscovered(devices: seq<string>, id: string) returns (found: bool)
    ensures found <==> id in devices
  {
    found := false;
    var i := 0;
    while i < |devices| && !found
      invariant 0 <= i <= |devices|
      invariant found <==> id in devices[..i]
    {
      found := devices[i] == id;
      i := i + 1;
    }
    assert !found ==> devices[..i] == devices;
  }

  /** What the answer handler does with the parsed answer. */
  datatype SelectOutcome =
    | Saved(id: string)   // "Saved preferred device"
    | NoSuchIndex         // "Can't find device with index"
    | EmptyId             // "Can't find id for"
    | Crashed             // a TypeError escapes the handler

  /**
   * The answer handler as written: a negative index passes
   * `index && index <= length`, finds no device, and the error message then
   * reads `device.id` of `undefined`, which throws.
   */
  function SelectionAsWritten(devices: seq<string>, answer: Option<int>): (r: SelectOutcome)
    ensures r.Crashed? <==> answer.Some? && answer.value < 0
    ensures r.Saved? <==> answer.Some? && 1 <= answer.value <= |devices| && devices[answer.value - 1] != ""
    ensures r.Saved? ==> r.id == devices[answer.value - 1]
  {
    if answer.Some? && answer.value != 0 && answer.value <= |devices| then
      if answer.value < 1 then Crashed
      else if devices[answer.value - 1] != "" then Saved(devices[answer.value - 1])
      else EmptyId
    else NoSuchIndex
  }

  lemma NegativeAnswerCrashes(devices: seq<string>)
    ensures SelectionAsWritten(devices, Some(-1)) == Crashed
  {
  }

  /** The answer handler with a negative index reported like any other missing device. */
  function Selection(devices: seq<string>, answer: Option<int>): (r: SelectOutcome)
    ensures r.Saved? <==> answer.Some? && 1 <= answer.value <= |devices| && devices[answer.value - 1] != ""
    ensures r.Saved? ==> r.id == devices[answer.value - 1]
    ensures r == EmptyId <==> answer.Some? && 1 <= answer.value <= |devices| && devices[answer.value - 1] == ""
    ensures !r.Crashed?
  {
    if answer.Some? && answer.value != 0 && answer.value <= |devices| then
      if answer.value < 1 then NoSuchIndex
      else if devices[answer.value - 1] != "" then Saved(devices[answer.value - 1])
      else EmptyId
    else NoSuchIndex
  }

  /** The correction changes only the negative-index case, and neither version saves there. */
  lemma SelectionCorrectionAgrees(devices: seq<string>, answer: Option<int>)
    ensures SelectionAsWritten(devices, answer).Saved? <==> Selection(devices, answer).Saved?
    ensures answer.None? || answer.value >= 0 ==> SelectionAsWritten(devices, answer) == Selection(devices, answer)
    ensures answer.Some? && answer.value < 0 ==>
      SelectionAsWritten(devices, answer) == Crashed && Selection(devices, answer) == NoSuchIndex
  {
  }

  class Scanner {
    /** `bluetoothDevices`, as their ids */
    var devices: seq<string>
    var isScanningCompleted: bool
    /** The ids reported while the scan was still running. */
    ghost var heard: seq<string>

    ghost predicate Valid()
      reads this
    {
      devices == Discovered(heard) && Distinct(devices)
    }

    constructor ()
      ensures Valid() && devices == [] && !isScanningCompleted && heard == []
    {
      devices := [];
      isScanningCompleted := false;
      heard := [];
    }

    /** `deviceFound`: ignored after completion and for a known id; otherwise appended. */
    method Found(id: string)
      requires Valid()
      modifies this
      ensures Valid()
      ensures isScanningCompleted == old(isScanningCompleted)
      ensures devices == FoundStep(old(devices), old(isScanningCompleted), id)
      ensures heard == if old(isScanningCompleted) then old(heard) else old(heard) + [id]
    {
      if isScanningCompleted {
        return;
      }
      DiscoveredSnoc(heard, id);
      heard := heard + [id];
      var discovered := IsDiscovered(devices, id);
      if discovered {
        return;
      }
      devices := devices + [id];
    }

    /** The timer fires: later events are ignored. */
    method StopScanning()
      requires Valid()
      modifies this
      ensures Valid() && isScanningCompleted
      ensures devices == old(devices) && heard == old(heard)
    {
      isScanningCompleted := true;
    }

    /**
     * The answer handler as written, run after the timer fired, with
     * `parseInt(answer)` (None for NaN); a negative answer ends in the TypeError.
     */
    method Select(answer: Option<int>, config: JsonStorage) returns (outcome: SelectOutcome)
      requires Valid() && isScanningCompleted && config.Valid()
      modifies config
      ensures config.Valid()
      ensures outcome == SelectionAsWritten(devices, answer)
      ensures outcome.Saved? ==> config.dirExists && config.file == Some(Store(old(config.Contents()), "device_id", Str(outcome.id)))
      ensures !outcome.Saved? ==> unchanged(config)
    {
      if answer.Some? && answer.value != 0 && answer.value <= |devices| {
        var index := answer.value;
        if 1 <= index && devices[index - 1] != "" {
          config.Set("device_id", Str(devices[index - 1]));
          outcome := Saved(devices[index - 1]);
        } else if 1 <= index {
          outcome := EmptyId;
        } else {
          outcome := Crashed;
        }
      } else {
        outcome := NoSuchIndex;
      }
    }
  }
}
