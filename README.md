# CAN intrusion detectors, modelled in Dafny

This project models the two intrusion detectors of the CAN IDS benchmark
(`src/main.py`). Each one reads a stream of CAN records, where a record has an
arbitration id, a timestamp and a data length code (dlc).

* **Timing detector** (`IDS_timeframe.run`, module `TimingIds` in
  `timing.dfy`). It keeps three dictionaries keyed by arbitration id:
  * the smallest interval learned so far between two data frames of the id;
  * the timestamp of the id's last data frame;
  * a one-shot "ignore the next data frame" flag.

  A remote frame (dlc 0) sets the flag of its id. The next data frame of that
  id clears the flag and changes nothing else. Any other data frame records its
  timestamp. From the id's second timed data frame on, it also learns or lowers
  the minimum interval. An attack is reported when the interval is below half
  the learned minimum.

  The detector is a class, `TimingDetector`, with the three dictionaries as
  fields. Its `Step` method is proved equal to the pure step function `Next`.
  `Run` feeds a whole stream through a fresh detector and returns the positions
  of the reported attacks, as the pure function `Attacks` describes them. The
  lemmas state what the stream-level behaviour means:
  * an id at a steady cadence is never reported, even when other ids interleave;
  * a sudden burst is reported once, and then becomes the new minimum;
  * a remote frame hides exactly one data frame;
  * minima never grow on a time-ordered stream.

* **Transition detector** (`IDS_transitions.run`, module `TransitionIds` in
  `transitions.dfy`). Training reads a first stream and builds three things:
  * `unique_id`, a dense index 0..N-1 given to ids by first appearance;
  * `transitions`, which maps each id to the ids that immediately followed it,
    each listed once;
  * an N×N boolean matrix with a cell set for every such pair.

  Detection reads a second stream. It counts the consecutive pairs that
  training never saw: a pair of two unknown ids counts, and so does a pair of
  two known ids whose matrix cell is false. A pair with exactly one unknown id
  makes the dictionary lookup fail with `KeyError`. The model returns that
  failure as `Err(KeyError(id))`.

  The methods `Learn`, `FillMatrix`, `Detect` and `RunTransitions` follow the
  source's loops. They are proved against the functions `UniqueIds`,
  `TransitionsOf` and `Detection`. Lemmas characterise those functions:
  * the index is a bijection in first-appearance order;
  * an id's index never changes once assigned;
  * the learned pairs are exactly the pairs that occurred in training;
  * detection is clean exactly when every pair was trained, and fails exactly
    on a half-known pair.

Shared record type: module `CanFrames` in `frames.dfy`.

At the end of a run the source prints "transitions" as `len(transitions)`
(`src/main.py:212`). That is the number of distinct ids that were followed by
something, not the number of distinct pairs learned. The model follows the
code: `RunTransitions` reports `|Origins(...)|`, and
`TransitionFigureCountsOrigins` shows a training stream with three pairs and
two origins.

## Model

| member | source | states |
|---|---|---|
| TimingIds.Next | src/main.py:116-133 | There are three cases. A remote frame only adds its id to the ignore set. A data frame whose id is flagged only removes the flag. Any other data frame sets its id's last timestamp, leaves the flags alone, and leaves every other id's minimum unchanged. For its own id, once it has a last timestamp, it learns the interval as the minimum if there was none, and otherwise (for a non-negative minimum) keeps the smaller of the old minimum and the interval. An attack is reported iff the frame is an unflagged data frame whose id has both a last timestamp and a minimum, and the interval is below half that minimum. Learned minima are never dropped. |
| TimingIds.Attacks | src/main.py:104-136 | The reported positions are valid record positions, strictly increasing. |
| TimingIds.AttacksAreReportedSteps | src/main.py:122-123 | A position is in `Attacks` iff the step at that position, taken from the replayed state, reports an attack. |
| TimingIds.TimingDetector.constructor | src/main.py:99-102 | The detector starts with all three dictionaries empty. |
| TimingIds.TimingDetector.Step | src/main.py:116-133 | The new field values and the attack verdict are those of `Next` applied to the old state. |
| TimingIds.Run | src/main.py:98-136 | The result is exactly `Attacks(Initial, frames)`. Every reported position is a data frame of the stream. |
| TimingIds.ReplayAppend | src/main.py:106-136 | Processing a stream in two parts gives the same state as processing it whole. |
| TimingIds.OrderedReplay | src/main.py:117-128 | On a time-ordered stream, every learned minimum is non-negative. No last timestamp lies after the newest record. |
| TimingIds.MinNonIncreasing | src/main.py:122-126 | On a time-ordered stream, an id's learned minimum is never forgotten and never grows as more records arrive. |
| TimingIds.OtherIdsLeaveEntry | src/main.py:116-133 | Records of other ids leave an id's flag, last timestamp and minimum exactly as they were. |
| TimingIds.FirstTwoRecordsNeverReported | src/main.py:117-122 | No attack is ever reported at the first or second record of a stream. |
| TimingIds.SteadyCadenceIsQuiet | src/main.py:117-128 | An id whose frames are all data frames, each arriving a steady non-negative period after the previous one of that id, is never reported at any of its positions. Frames of other ids may be interleaved arbitrarily. Its last timestamp is that of its newest frame. Once two of its frames have passed its minimum is exactly the period, and before that it has none. |
| TimingIds.SteadyCadenceState | src/main.py:116-128 | The same cadence leaves the id unflagged, stamped with its newest timestamp, and with the period as its minimum from its second frame on. |
| TimingIds.ReportedBurst | src/main.py:122-124 | A data frame arriving within half its id's learned minimum is reported at its position. It leaves the id unflagged and stamped, with the new interval as its minimum. |
| TimingIds.QuietAtMinimum | src/main.py:122-128 | A data frame arriving exactly its id's non-negative learned minimum after the previous one is not reported, and the minimum stays. |
| TimingIds.CollapseReportedOnce | src/main.py:122-126 | A frame arriving within half the learned minimum is reported, and the minimum drops to the new interval. The id's next data frame at that same new cadence adds no report, whatever frames of other ids come in between. |
| TimingIds.RemoteFrameSuppressesOneDataFrame | src/main.py:130-133 | After a remote frame, the next data frame of the same id (other ids may come in between) is not reported. It leaves that id's last timestamp and minimum as they were before the remote frame, with no flag left over. |
| TransitionIds.Distinct | src/main.py:168-170 | The ids of the stream, each exactly once. |
| TransitionIds.UniqueIds | src/main.py:166-170 | The index has exactly the ids of the stream as keys, and every index is below the number of keys. |
| TransitionIds.UniqueIdsIsBijection | src/main.py:166-170 | The index maps the distinct ids, listed in first-appearance order, one-to-one onto 0..N-1. The k-th distinct id gets index k. |
| TransitionIds.IndexNeverChanges | src/main.py:168-170 | An index, once assigned, is kept for the rest of training. |
| TransitionIds.IndexOrderIsFirstAppearance | src/main.py:166-170 | One id has a smaller index than another iff it first appears earlier, the first record included. |
| TransitionIds.TransitionsOf | src/main.py:157-164 | No origin's list of followers holds an id twice. |
| TransitionIds.TransitionsAreTrainedPairs | src/main.py:157-166 | The keys of `transitions` are exactly the ids some id followed. `d` is listed under `o` iff `d` immediately followed `o` somewhere in training. |
| TransitionIds.Learn | src/main.py:155-171 | The training loop builds exactly `UniqueIds` and `TransitionsOf` of the training ids. |
| TransitionIds.MarkRow | src/main.py:182-183 | The cell of the origin and each of its followers is set, and no other cell changes. |
| TransitionIds.MarkTransitions | src/main.py:181-183 | Starting from an all-false N×N matrix, the cell of `o` and `d` ends up true iff `d` is listed under `o`. |
| TransitionIds.CellsByIds | src/main.py:183 | Under a dense index, a cell statement made by index position carries over to every pair of ids. |
| TransitionIds.FillMatrix | src/main.py:179-183 | The matrix is a new N×N array. Given a dense index, the cell of `o` and `d` is true iff `d` is listed under `o`. |
| TransitionIds.TrainedIndexCoversPairs | src/main.py:160-183 | After training the index is dense, and every origin and follower has an index, so no lookup of the matrix population fails. |
| TransitionIds.Train | src/main.py:155-183 | The trained index and dictionary equal their specifications. The matrix is a new N×N array, and a cell is true iff its pair immediately followed in training. |
| TransitionIds.Detection | src/main.py:187-209 | Streams of zero or one record yield no anomaly. A successful count is at most one per consecutive pair. |
| TransitionIds.DetectionFailsOnHalfKnownPair | src/main.py:199-204 | Detection fails with `KeyError` iff some consecutive pair has exactly one id unknown to training. The failing key is an id of the stream that training never saw. |
| TransitionIds.FirstHalfKnownPairDecidesKey | src/main.py:199-204 | When several pairs are half known, the first one decides the failure. Its key is the pair's left id if training never saw it, and its right id otherwise, because the left lookup is evaluated first. |
| TransitionIds.DetectionCleanIffAllPairsTrained | src/main.py:199-206 | Detection yields zero anomalies, without failure, iff every consecutive pair occurred in training. |
| TransitionIds.ErrorPersists | src/main.py:204 | Once the loop has raised, the result of the whole stream is that error. |
| TransitionIds.Detect | src/main.py:187-209 | The detection loop returns exactly `Detection` of the training and detection ids. It reads the index and the matrix and changes neither. |
| TransitionIds.RunTransitions | src/main.py:147-213 | On failure the run raises the same `KeyError` as `Detection`. Otherwise it reports the anomaly count, the number of distinct origins as the transition figure, and the number of distinct training ids. |
| TransitionIds.TrainingStreamIsClean | src/main.py:187-206 | Detecting on the training stream itself finds no anomaly. |
| TransitionIds.UnseenPairCounted | src/main.py:200-202 | A pair of two ids unknown to training adds exactly one anomaly. |
| TransitionIds.CycleTraining | src/main.py:155-170 | Training on 1, 2, 3, 1 gives the index {1:0, 2:1, 3:2} and learns exactly 1→2, 2→3 and 3→1. |
| TransitionIds.CycleDetection | src/main.py:199-206 | With that training, replaying 1, 2, 3, 1 finds nothing, and 1, 3 is one anomaly. |
| TransitionIds.TwoIdScenario | src/main.py:155-206 | Training on 10, 20, 10 gives the index {10:0, 20:1} and learns 10→20 and 20→10. The training stream is clean, and 10, 10 is one anomaly. |
| TransitionIds.HalfKnownPairRaisesKeyError | src/main.py:199-204 | A half-known pair raises `KeyError` on its unknown id, on either side. In 30, 10, 40 both pairs are half known, and the first one decides the key (30). |
| TransitionIds.TransitionFigureCountsOrigins | src/main.py:212 | Training on 1, 2, 1, 3 learns `{1: [2, 3], 2: [1]}`, and the printed transition figure is 2. |

## Left out

- CSV parsing (`CSVReader`), the conversion of a date string into a timestamp, and the construction and validation of `can.Message`. Records are given as a sequence of `Frame`, and the dlc is any natural number.
- `ProducerThread`, the threads themselves, the `__main__` block with its hard-coded file paths, logging, and `print`. Each detector is modelled as one sequential run over its input. The attack log line becomes the returned position; the three printed figures become `Summary`.
- The `msg is None` branch with `sys.exit()` (`src/main.py:107-109`). The reader never yields `None`, so the branch cannot be reached.
- Timestamps are exact reals. The floating-point rounding of the subtraction and of the halving is not modelled.
- Arbitration ids are unbounded naturals. The 11- or 29-bit range of a real bus is not modelled.
- TimingIds.Next: the minimum is stated to become `Min(old, interval)` only when the old minimum is non-negative. With a negative minimum, which needs out-of-order timestamps, the code at `src/main.py:122-124` replaces the minimum by any interval below half of it, and such an interval may be larger than the minimum. So a universal "never grows" does not hold there, and the contract states only the non-negative case.
- TransitionIds.FillMatrix: visits the origins in an arbitrary order instead of dictionary insertion order. Cells are only ever set to `true`, so the result does not depend on the order.
- TransitionIds.Detect: takes the trained index and matrix through a precondition stating what training produced, rather than re-running training. `RunTransitions` discharges it from `Train`.
- TransitionIds.Detection: keeps the training ids as a ghost parameter, used only to state the specification. The running code consults only the index and the matrix, as the source does.
