/** The detection state machine as a function of the state carried from one
    block to the next: the last emitted key, the detection counter and the
    key history. */
module StateMachine {
  import opened Keypad
  import opened Classifier
  import opened KeyHistory
  import opened Counter

  datatype DetectorState = DetectorState(lastKey: char, count: nat, history: seq<char>)

  /** The state at start-up: no key held, no detections, empty history. */
  const Initial: DetectorState := DetectorState(NoKey, 0, [])

  predicate Inv(s: DetectorState)
  {
    |s.history| <= HistorySize && s.count < CountModulus
  }

  /** Both tone groups are above the detection threshold. */
  predicate Strong(d: Detection, threshold: real)
  {
    d.maxRow > threshold && d.maxCol > threshold
  }

  /** Both tone groups are below half the threshold: a held key is released. */
  predicate Quiet(d: Detection, threshold: real)
  {
    d.maxRow < threshold / 2.0 && d.maxCol < threshold / 2.0
  }

  /** A block raises a detection event: strong, and a key other than the one held. */
  predicate Fires(s: DetectorState, mags: Magnitudes, threshold: real)
  {
    var d := Classification(mags);
    Strong(d, threshold) && d.key != s.lastKey
  }

  /** One block's update of the detector state. */
  function Next(s: DetectorState, mags: Magnitudes, threshold: real): (r: DetectorState)
    requires Inv(s)
    ensures Inv(r)
    ensures Fires(s, mags, threshold) ==>
      r.lastKey == Classification(mags).key && r.history == Window(s.history + [r.lastKey])
    ensures !Fires(s, mags, threshold) ==> r.count == s.count && r.history == s.history
  {
    var d := Classification(mags);
    if Strong(d, threshold) then
      if d.key != s.lastKey then
        DetectorState(d.key, Tick(s.count), Pushed(s.history, d.key))
      else
        s
    else if s.lastKey != NoKey && Quiet(d, threshold) then
      s.(lastKey := NoKey)
    else
      s
  }

  /** The state after a sequence of blocks, in order. */
  function Run(s: DetectorState, blocks: seq<Magnitudes>, threshold: real): (r: DetectorState)
    requires Inv(s)
    ensures Inv(r)
    decreases |blocks|
  {
    if blocks == [] then s else Run(Next(s, blocks[0], threshold), blocks[1..], threshold)
  }

  /** The keys of the detection events a sequence of blocks raises, in order. */
  function Emitted(s: DetectorState, blocks: seq<Magnitudes>, threshold: real): (e: seq<char>)
    requires Inv(s)
    ensures |e| <= |blocks|
    decreases |blocks|
  {
    if blocks == [] then []
    else
      EmittedBy(s, blocks[0], threshold) + Emitted(Next(s, blocks[0], threshold), blocks[1..], threshold)
  }

  /** The keys one block emits: its key when it fires, nothing otherwise. */
  function EmittedBy(s: DetectorState, mags: Magnitudes, threshold: real): (e: seq<char>)
    ensures |e| <= 1
  {
    if Fires(s, mags, threshold) then [Classification(mags).key] else []
  }

  /** One block, stated in the terms of RunHistory and RunCount. */
  lemma NextSummary(s: DetectorState, mags: Magnitudes, threshold: real)
    requires Inv(s)
    ensures Next(s, mags, threshold).history == Window(s.history + EmittedBy(s, mags, threshold))
    ensures Next(s, mags, threshold).count == Advance(s.count, |EmittedBy(s, mags, threshold)|)
  {
    if !Fires(s, mags, threshold) {
      assert s.history + [] == s.history;
    }
  }

  /** After any sequence of blocks the history is the last twelve emitted
      keys. */
  lemma {:induction false} RunHistory(s: DetectorState, blocks: seq<Magnitudes>, threshold: real)
    requires Inv(s)
    ensures Run(s, blocks, threshold).history == Window(s.history + Emitted(s, blocks, threshold))
    decreases |blocks|
  {
    if blocks != [] {
      var s' := Next(s, blocks[0], threshold);
      var e0 := EmittedBy(s, blocks[0], threshold);
      var rest := Emitted(s', blocks[1..], threshold);
      NextSummary(s, blocks[0], threshold);
      RunHistory(s', blocks[1..], threshold);
      WindowChain(s.history, s'.history, Run(s', blocks[1..], threshold).history, e0, rest);
      assert Emitted(s, blocks, threshold) == e0 + rest;
    }
  }

  /** Run and Emitted on a non-empty sequence of blocks, first block first. */
  lemma RunUnfold(s: DetectorState, blocks: seq<Magnitudes>, threshold: real)
    requires Inv(s) && blocks != []
    ensures Run(s, blocks, threshold) == Run(Next(s, blocks[0], threshold), blocks[1..], threshold)
    ensures Emitted(s, blocks, threshold) ==
      EmittedBy(s, blocks[0], threshold) + Emitted(Next(s, blocks[0], threshold), blocks[1..], threshold)
  {
  }

  /** After any sequence of blocks the counter has been incremented once
      per event. */
  lemma {:induction false} RunCount(s: DetectorState, blocks: seq<Magnitudes>, threshold: real)
    requires Inv(s)
    ensures Run(s, blocks, threshold).count == Advance(s.count, |Emitted(s, blocks, threshold)|)
    decreases |blocks|
  {
    if blocks != [] {
      var s' := Next(s, blocks[0], threshold);
      var e0 := EmittedBy(s, blocks[0], threshold);
      var rest := Emitted(s', blocks[1..], threshold);
      RunUnfold(s, blocks, threshold);
      NextSummary(s, blocks[0], threshold);
      RunCount(s', blocks[1..], threshold);
      AdvanceAdd(s.count, |e0|, |rest|);
    }
  }

  /** With a non-negative threshold, a block that fires carries a keypad
      symbol. */
  lemma EmittedByIsKey(s: DetectorState, mags: Magnitudes, threshold: real)
    requires threshold >= 0.0
    ensures AllKeys(EmittedBy(s, mags, threshold))
  {
    if Fires(s, mags, threshold) {
      StrongSignalHasKey(mags, threshold);
    }
  }

  /** With a non-negative threshold, every event carries a keypad symbol:
      the "no key" character never reaches the history. */
  lemma {:induction false} EmittedAreKeys(s: DetectorState, blocks: seq<Magnitudes>, threshold: real)
    requires Inv(s) && threshold >= 0.0
    ensures AllKeys(Emitted(s, blocks, threshold))
    decreases |blocks|
  {
    if blocks != [] {
      var s' := Next(s, blocks[0], threshold);
      RunUnfold(s, blocks, threshold);
      EmittedByIsKey(s, blocks[0], threshold);
      EmittedAreKeys(s', blocks[1..], threshold);
      AllKeysConcat(EmittedBy(s, blocks[0], threshold), Emitted(s', blocks[1..], threshold));
    }
  }

  /** Starting from keypad symbols only, the history holds keypad symbols
      only, whatever blocks arrive. */
  lemma HistoryHoldsOnlyKeys(s: DetectorState, blocks: seq<Magnitudes>, threshold: real)
    requires Inv(s) && threshold >= 0.0 && AllKeys(s.history)
    ensures AllKeys(Run(s, blocks, threshold).history)
  {
    var all := s.history + Emitted(s, blocks, threshold);
    RunHistory(s, blocks, threshold);
    EmittedAreKeys(s, blocks, threshold);
    AllKeysConcat(s.history, Emitted(s, blocks, threshold));
    assert Window(all) == all || Window(all) == all[|all| - HistorySize..];
  }

  /** The counter never goes down as long as it does not pass 2^32 - 1. */
  lemma CountNeverDecreases(s: DetectorState, blocks: seq<Magnitudes>, threshold: real)
    requires Inv(s) && s.count + |blocks| < CountModulus
    ensures Run(s, blocks, threshold).count >= s.count
    ensures Run(s, blocks, threshold).count - s.count <= |blocks|
  {
    RunCount(s, blocks, threshold);
    AdvanceWithoutWrap(s.count, |Emitted(s, blocks, threshold)|);
  }

  /** Edge triggering: a key held over any number of strong blocks raises
      one event (none if it is already the held key), and the counter moves
      by one at most. */
  lemma {:induction false} HeldKeyFiresOnce(s: DetectorState, blocks: seq<Magnitudes>, threshold: real, k: char)
    requires Inv(s) && |blocks| > 0
    requires forall i | 0 <= i < |blocks| ::
      Strong(Classification(blocks[i]), threshold) && Classification(blocks[i]).key == k
    ensures Emitted(s, blocks, threshold) == if s.lastKey == k then [] else [k]
    ensures Run(s, blocks, threshold).lastKey == k
    ensures Run(s, blocks, threshold).count == if s.lastKey == k then s.count else Tick(s.count)
    decreases |blocks|
  {
    var s' := Next(s, blocks[0], threshold);
    if |blocks| > 1 {
      HeldKeyFiresOnce(s', blocks[1..], threshold, k);
    }
  }

  /** Hysteresis: blocks that are neither strong nor quiet change nothing
      and raise no event, whichever key is held. */
  lemma {:induction false} LatchedBetweenThresholds(s: DetectorState, blocks: seq<Magnitudes>, threshold: real)
    requires Inv(s)
    requires forall i | 0 <= i < |blocks| ::
      !Strong(Classification(blocks[i]), threshold) && !Quiet(Classification(blocks[i]), threshold)
    ensures Run(s, blocks, threshold) == s
    ensures Emitted(s, blocks, threshold) == []
    decreases |blocks|
  {
    if blocks != [] {
      LatchedBetweenThresholds(s, blocks[1..], threshold);
    }
  }

  /** A quiet block releases the held key, so the same key pressed again
      raises a second event. */
  lemma ReleaseRearms(s: DetectorState, quiet: Magnitudes, press: Magnitudes, threshold: real)
    requires Inv(s)
    requires Quiet(Classification(quiet), threshold) && !Strong(Classification(quiet), threshold)
    requires Strong(Classification(press), threshold) && IsKey(Classification(press).key)
    ensures Next(s, quiet, threshold).lastKey == NoKey
    ensures Fires(Next(s, quiet, threshold), press, threshold)
  {
  }

  const Press: Magnitudes := [1500.0, 0.0, 0.0, 0.0, 0.0, 1800.0, 0.0, 0.0]
  const Hold: Magnitudes := [1400.0, 0.0, 0.0, 0.0, 0.0, 1700.0, 0.0, 0.0]
  const Silence: Magnitudes := [300.0, 0.0, 0.0, 0.0, 0.0, 300.0, 0.0, 0.0]

  /** How the three blocks of KeyTwoPressedTwice classify. */
  lemma KeyTwoBlocks()
    ensures Classification(Press) == Detection(0, 1, 1500.0, 1800.0, '2')
    ensures Classification(Hold) == Detection(0, 1, 1400.0, 1700.0, '2')
    ensures Classification(Silence) == Detection(0, 1, 300.0, 300.0, '2')
  {
    SingleToneKey(Press, 0, 1);
    SingleToneKey(Hold, 0, 1);
    SingleToneKey(Silence, 0, 1);
  }

  /** Key '2' (697 Hz and 1336 Hz) at threshold 1000: pressed, held, let go
      below half the threshold, and pressed again raises two events. */
  lemma KeyTwoPressedTwice()
    ensures Run(Initial, [Press, Hold, Silence, Press], 1000.0) == DetectorState('2', 2, ['2', '2'])
    ensures Emitted(Initial, [Press, Hold, Silence, Press], 1000.0) == ['2', '2']
  {
    KeyTwoBlocks();
    var s1 := DetectorState('2', 1, ['2']);
    var s3 := DetectorState(NoKey, 1, ['2']);
    var s4 := DetectorState('2', 2, ['2', '2']);
    assert Next(Initial, Press, 1000.0) == s1;
    assert Next(s1, Hold, 1000.0) == s1;
    assert Next(s1, Silence, 1000.0) == s3;
    assert Next(s3, Press, 1000.0) == s4 by {
      assert Pushed(['2'], '2') == ['2', '2'];
    }
    var b0 := [Press, Hold, Silence, Press];
    var b1, b2, b3 := [Hold, Silence, Press], [Silence, Press], [Press];
    assert b0[1..] == b1 && b1[1..] == b2 && b2[1..] == b3 && b3[1..] == [];
    assert EmittedBy(s3, Press, 1000.0) == ['2'] && EmittedBy(Initial, Press, 1000.0) == ['2'];
    assert EmittedBy(s1, Hold, 1000.0) == [] && EmittedBy(s1, Silence, 1000.0) == [];
    assert b0[0] == Press && b1[0] == Hold && b2[0] == Silence && b3[0] == Press;
    assert Emitted(s4, [], 1000.0) == [];
    assert Emitted(s3, b3, 1000.0) == EmittedBy(s3, Press, 1000.0) + Emitted(s4, [], 1000.0);
    assert Run(s3, b3, 1000.0) == s4 && Emitted(s3, b3, 1000.0) == ['2'];
    assert Run(s1, b2, 1000.0) == s4 && Emitted(s1, b2, 1000.0) == ['2'];
    assert Run(s1, b1, 1000.0) == s4 && Emitted(s1, b1, 1000.0) == ['2'];
    assert Run(Initial, b0, 1000.0) == s4;
  }
}
