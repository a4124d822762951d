/** The detector as the firmware keeps it: the held key, the detection
    counter, and the recent-key history in a NUL-terminated character buffer
    of HistorySize + 1 slots with its length, all updated in place. */
module Detector {
  import opened Keypad
  import opened Classifier
  import opened KeyHistory
  import opened StateMachine
  import opened Counter

  class Detector {
    var lastKey: char
    var count: nat
    const history: array<char>
    var historyLength: nat

    /** The buffer has room for HistorySize keys and the terminator, the
        length is within capacity, every slot from the length on is NUL, and
        the counter fits in 32 bits. */
    ghost predicate Valid()
      reads this, history
    {
      history.Length == HistorySize + 1 &&
      historyLength <= HistorySize &&
      count < CountModulus &&
      forall j | historyLength <= j < history.Length :: history[j] == '\0'
    }

    /** The keys in the history, oldest first. */
    ghost function Recent(): seq<char>
      reads this, history
      requires Valid()
    {
      history[..historyLength]
    }

    /** The abstract state the state machine works on. */
    ghost function State(): (s: DetectorState)
      reads this, history
      requires Valid()
      ensures Inv(s)
    {
      DetectorState(lastKey, count, Recent())
    }

    constructor ()
      ensures Valid() && fresh(history)
      ensures State() == Initial
    {
      lastKey := NoKey;
      count := 0;
      history := new char[HistorySize + 1](_ => '\0');
      historyLength := 0;
    }

    /** Records an emitted key: appended while the history has room,
        otherwise the oldest key is shifted out and the key is written in
        the last slot. */
    method AddToHistory(key: char)
      requires Valid()
      modifies this`historyLength, history
      ensures Valid()
      ensures old(historyLength) < HistorySize ==>
        historyLength == old(historyLength) + 1 &&
        history[old(historyLength)] == key &&
        history[..old(historyLength)] == old(history[..historyLength])
      ensures old(historyLength) == HistorySize ==>
        historyLength == HistorySize &&
        history[..HistorySize] == old(history[1..HistorySize]) + [key]
      ensures history[historyLength] == '\0'
      ensures Recent() == Pushed(old(Recent()), key)
    {
      if historyLength < HistorySize {
        history[historyLength] := key;
        historyLength := historyLength + 1;
        history[historyLength] := '\0';
      } else {
        for i := 0 to HistorySize - 1
          invariant historyLength == HistorySize
          invariant forall j | 0 <= j < i :: history[j] == old(history[j + 1])
          invariant forall j | i <= j < history.Length :: history[j] == old(history[j])
        {
          history[i] := history[i + 1];
        }
        history[HistorySize - 1] := key;
        history[HistorySize] := '\0';
        assert history[..HistorySize] == old(history[1..HistorySize]) + [key];
      }
    }

    /** Processes the magnitudes of one block: classifies them, then raises
        an event when the signal is strong and the key differs from the held
        one, or releases the held key when both groups fall below half the
        threshold. Returns the classification and whether an event fired. */
    method Step(mags: Magnitudes, threshold: real) returns (d: Detection, fired: bool)
      requires Valid()
      modifies this`lastKey, this`count, this`historyLength, history
      ensures Valid()
      ensures d == Classification(mags)
      ensures fired == (Strong(d, threshold) && d.key != old(lastKey))
      ensures fired ==>
        lastKey == d.key &&
        count == Tick(old(count)) &&
        Recent() == Pushed(old(Recent()), d.key)
      ensures !fired ==> count == old(count) && Recent() == old(Recent())
      ensures Strong(d, threshold) && !fired ==> lastKey == old(lastKey)
      ensures !Strong(d, threshold) ==>
        lastKey == if Quiet(d, threshold) then NoKey else old(lastKey)
      ensures State() == Next(old(State()), mags, threshold)
    {
      d := Classify(mags);
      fired := false;
      if d.maxRow > threshold && d.maxCol > threshold {
        if d.key != lastKey {
          lastKey := d.key;
          count := Tick(count);
          AddToHistory(d.key);
          fired := true;
        }
      } else {
        if lastKey != NoKey && d.maxRow < threshold / 2.0 && d.maxCol < threshold / 2.0 {
          lastKey := NoKey;
        }
      }
    }
  }
}
