# DTMF listener: detection logic

This project models the decision logic of an ESP32 DTMF (dual-tone
multi-frequency) listener. Each audio block goes through a Goertzel filter bank,
which gives eight tone magnitudes. The detector then does three things with them:

- **Key classifier.** It picks the dominant row tone (697, 770, 852 or 941 Hz)
  and the dominant column tone (1209, 1336, 1477 or 1633 Hz). Each pick uses a
  strict `>` against a running maximum that starts at 0 with index -1, so ties go
  to the lower index. It then looks the key up in the 4x4 keypad matrix. If
  either group has no tone above 0, the result is `' '` ("no key").
- **Detection state machine.** When both maxima exceed the threshold and the key
  differs from the held key `lastKey`, the detector emits an event: it stores the
  key, increments the 32-bit detection counter and records the key in the
  history. A key held over many blocks fires once (edge triggering). When the
  signal is not strong, the held key is released only if both maxima are below
  half the threshold (hysteresis).
- **Bounded key history.** The last twelve emitted keys are kept in a
  NUL-terminated buffer of 13 characters. When the buffer is full it shifts left
  by one.

The eight magnitudes are inputs of the model. They are Dafny `real`s, so
comparisons are exact.

Files:
- `keypad.dfy`: the key matrix, the tone table, the key lookup and its inverse.
- `classifier.dfy`: the group scan, its reference specification `IsLowestMax`,
  and the classifier as a function and as the source's two loops.
- `history.dfy`: the history as a value, i.e. pushing onto a bounded FIFO, and
  the fact that the history keeps the last twelve keys pushed.
- `counter.dfy`: the 32-bit unsigned detection counter.
- `state_machine.dfy`: the per-block transition `Next`, runs over many blocks,
  and the edge-trigger, hysteresis, history and counter properties.
- `detector.dfy`: the class `Detector`. Its fields are the firmware's globals
  (`lastKey`, `count`, the `history` array and `historyLength`). `AddToHistory`
  shifts the array in place. `Step` is proved against `Next`.

## Model

| member | source | states |
|---|---|---|
| Keypad.KeyFor | src/main.cpp:464-472 | With both indices found, the key is the matrix entry, and the standard DTMF table puts that symbol at exactly that (row, column). It is `' '` iff either index is -1. It is never NUL. |
| Keypad.KeyMatrixInverse | src/main.cpp:35-39 | Each matrix entry sits at the cell the standard DTMF assignment gives its symbol. |
| Keypad.PositionInverse | src/main.cpp:35-39 | Each of the sixteen keypad symbols is stored in the matrix at its standard cell, so the table holds each symbol exactly once. |
| Keypad.ToneGroups | src/main.cpp:23-33 | The eight tones increase strictly, so the row group is wholly below the column group. Every tone is below the Nyquist frequency of the 8000 Hz sample rate. |
| Classifier.ScanIsLowestMax | src/main.cpp:443-453 | The running-maximum scan with strict `>` from (-1, 0) gives (-1, 0) when no value is above 0. Otherwise it gives the largest value and the lowest index that reaches it. |
| Classifier.LowestMaxUnique | src/main.cpp:443-462 | The scan specification determines the index and the maximum uniquely. |
| Classifier.ClassificationMeetsSpec | src/main.cpp:442-472 | The row pick is the lowest-index maximum of magnitudes 0-3. The column pick is the same for 4-7, with the column index counted from 4. The key is the lookup of the two. |
| Classifier.ClassificationDetermined | src/main.cpp:442-472 | Any row and column picks that meet the scan specification are the classification. |
| Classifier.SingleToneKey | src/main.cpp:442-472 | A block with one row tone and one column tone, all others silent, classifies to the key at that row and column. |
| Classifier.Classify | src/main.cpp:442-472 | The two scanning loops and the key lookup compute exactly the classification function. |
| Classifier.TieGoesToLowerRow | src/main.cpp:446-453 | With equal maxima in the row group, the lower index is selected. |
| Classifier.StrongSignalHasKey | src/main.cpp:442-475 | With a non-negative threshold, a block whose row and column maxima both exceed it has both indices found and yields a keypad symbol. |
| KeyHistory.Pushed | src/main.cpp:159-177 | Pushing a key gives the last twelve of the old history followed by the key. The result never exceeds twelve keys and ends with the key. |
| KeyHistory.WindowOfWindow | src/main.cpp:167-176 | Evicting the oldest keys early loses nothing that a later eviction would keep. |
| KeyHistory.PushAll | src/main.cpp:159-177 | Any number of pushes keeps the history within twelve keys. |
| KeyHistory.PushAllIsWindow | src/main.cpp:159-177 | Pushing keys one at a time leaves exactly the last twelve of everything pushed, oldest evicted first. |
| Counter.TickIsIncrement | src/main.cpp:480 | One increment of the counter is addition of 1 modulo 2^32 and stays below 2^32. |
| Counter.AdvanceIsAddition | src/main.cpp:480 | n increments add n modulo 2^32. |
| Counter.AdvanceAdd | src/main.cpp:480 | a increments then b increments equal a + b increments. |
| Counter.AdvanceWithoutWrap | src/main.cpp:480 | Short of the wrap-around, n increments add exactly n. |
| StateMachine.Next | src/main.cpp:474-495 | One block keeps the history within twelve keys and the counter within 32 bits. On an event, `lastKey` becomes the detected key and the history gains it. Without an event, the counter and the history are unchanged. |
| StateMachine.Run | src/main.cpp:474-495 | Any sequence of blocks keeps the history within twelve keys and the counter within 32 bits. |
| StateMachine.EmittedBy | src/main.cpp:475-486 | A block emits at most one key. |
| StateMachine.Emitted | src/main.cpp:475-486 | A sequence of blocks emits at most one key per block. |
| StateMachine.NextSummary | src/main.cpp:474-486 | After one block, the history is the last twelve of the old history plus the emitted key, and the counter has moved once per emitted key. |
| StateMachine.RunHistory | src/main.cpp:474-486 | After any sequence of blocks, the history is the last twelve of the old history followed by every emitted key. |
| StateMachine.RunCount | src/main.cpp:474-486 | After any sequence of blocks, the counter has been incremented exactly once per event. |
| StateMachine.EmittedByIsKey | src/main.cpp:474-486 | With a non-negative threshold, the key of an event is a keypad symbol. |
| StateMachine.EmittedAreKeys | src/main.cpp:442-486 | With a non-negative threshold, every emitted key is a keypad symbol. `' '` is never emitted. |
| StateMachine.HistoryHoldsOnlyKeys | src/main.cpp:442-486 | With a non-negative threshold, a history of keypad symbols stays one, whatever blocks arrive. |
| StateMachine.CountNeverDecreases | src/main.cpp:480 | Short of the 32-bit wrap-around, the counter never goes down and rises by at most one per block. |
| StateMachine.HeldKeyFiresOnce | src/main.cpp:475-487 | N strong blocks of the same key emit that key once, or not at all if it is already held. They leave it held and raise the counter by at most one. |
| StateMachine.LatchedBetweenThresholds | src/main.cpp:488-495 | Blocks that are neither strong nor below half the threshold change nothing and emit nothing, whichever key is held. |
| StateMachine.ReleaseRearms | src/main.cpp:474-495 | A block below half the threshold releases the held key, so the same key pressed again fires again. |
| StateMachine.KeyTwoBlocks | src/main.cpp:442-472 | At threshold 1000, blocks with 697 Hz and 1336 Hz dominant classify to key '2' at row 0, column 1. |
| StateMachine.KeyTwoPressedTwice | src/main.cpp:474-495 | Key '2' pressed (1500/1800), held (1400/1700), dropped (300/300) and pressed again: two events, counter 2, history "22". |
| Detector.Detector.constructor | src/main.cpp:48-53 | Start-up state: no key held, counter 0, an empty, all-NUL history buffer of 13 slots. |
| Detector.Detector.AddToHistory | src/main.cpp:159-177 | Below capacity, the key is stored at the old length, the length grows by one, and earlier entries are kept. When full, the entries shift left by one, the key is written in slot 11 and the length stays 12. In both cases the slot at the length is NUL. |
| Detector.Detector.Step | src/main.cpp:442-495 | The step classifies the block. An event fires iff the signal is strong and the key differs from the held key. On an event, `lastKey` takes the key, the counter is incremented and the key is pushed. Otherwise the counter and history are unchanged. When the signal is not strong, the held key is released iff both maxima are below half the threshold. The new state is `Next` of the old one. |

## Left out

- Goertzel filter bank (src/main.cpp:420-440) and the coefficient table (src/main.cpp:126-137): these are `float` arithmetic with `cos` and `sqrt`. The model takes the eight magnitudes as input.
- Floating point: magnitudes and the threshold are exact reals. Rounding, NaN and infinities are not modelled. Non-negativity of the magnitudes is never needed.
- `audioLevel` (src/main.cpp:412-418) and `confidence` (src/main.cpp:466, 471): these are diagnostics that feed only the display and serial output.
- I2S driver setup, reads, read errors and reset (src/main.cpp:59-104, 279-285, 402-410), and the microphone test (src/main.cpp:215-277): hardware I/O.
- OLED display (src/main.cpp:106-124, 287-348), serial commands (src/main.cpp:179-213), debug printing (src/main.cpp:350-372), start-up banners (src/main.cpp:139-157, 374-396) and the event printout (src/main.cpp:483-485): I/O only. The model returns whether an event fired.
- `delay`, `millis()` and the timing globals: they do not affect detection decisions.
- `detectionThreshold` (src/main.cpp:56) is a global constant of 1000.0. No code path changes it. The model passes it to every step as a parameter. The properties that need a non-negative threshold say so.
- The detection counter is `unsigned long`, which is 32 bits on the ESP32. The model wraps it at 2^32. So "never decreases" holds only short of the wrap-around.
- Detector.Detector.Step: the fact that the history holds only keypad symbols is proved on the functional model (`HistoryHoldsOnlyKeys`, via `Step`'s equation with `Next`). It is not part of the class invariant `Valid()`.
