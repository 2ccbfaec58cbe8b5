/** The timing-based intrusion detector: per arbitration id it learns the
    smallest inter-arrival interval and reports an attack when a frame arrives
    in less than half of it. Remote frames (dlc 0) arm a one-shot flag that
    makes the next data frame of the same id invisible to the timing model. */
module TimingIds {
  import opened CanFrames

  /** The detector's three per-id dictionaries. The source keeps the ignore
      flags in a dictionary whose only value is True, so a set of ids is the
      same information. */
  datatype TimingState = TimingState(
    minTolerance: map<Id, real>,
    lastTimestamp: map<Id, real>,
    ignoreNext: set<Id>)

  /** The state the detector starts from: all three dictionaries empty. */
  const Initial := TimingState(map[], map[], {})

  /** What one step produces: the new state and whether an attack was reported. */
  datatype Outcome = Outcome(state: TimingState, attack: bool)

  function Min(a: real, b: real): real { if a <= b then a else b }

  /** `m` and `m'` hold the same entries for every key other than `x`. */
  ghost predicate AgreeExcept<V>(m: map<Id, V>, m': map<Id, V>, x: Id)
  {
    forall y :: y != x ==> (y in m <==> y in m') && (y in m ==> m[y] == m'[y])
  }

  /** One record processed by the detector. */
  function Next(s: TimingState, f: Frame): (o: Outcome)
    // a remote frame only arms the flag of its id
    ensures f.dlc == 0 ==> o.state == s.(ignoreNext := s.ignoreNext + {f.id}) && !o.attack
    // a data frame whose id is armed only consumes the flag
    ensures f.dlc != 0 && f.id in s.ignoreNext ==>
      o.state == s.(ignoreNext := s.ignoreNext - {f.id}) && !o.attack
    // every other data frame stamps its id, keeps the flags, and ratchets the minimum
    ensures f.dlc != 0 && f.id !in s.ignoreNext ==>
      && o.state.lastTimestamp == s.lastTimestamp[f.id := f.timestamp]
      && o.state.ignoreNext == s.ignoreNext
      && (f.id !in s.lastTimestamp ==> o.state.minTolerance == s.minTolerance)
      && (f.id in s.lastTimestamp ==>
            var interval := f.timestamp - s.lastTimestamp[f.id];
            && AgreeExcept(o.state.minTolerance, s.minTolerance, f.id)
            && f.id in o.state.minTolerance
            && (f.id !in s.minTolerance ==> o.state.minTolerance[f.id] == interval)
            && (f.id in s.minTolerance && 0.0 <= s.minTolerance[f.id] ==>
                  o.state.minTolerance[f.id] == Min(s.minTolerance[f.id], interval)))
    // an attack is reported exactly when a learned minimum exists and the interval is below half of it
    ensures o.attack <==>
      && f.dlc != 0 && f.id !in s.ignoreNext
      && f.id in s.lastTimestamp && f.id in s.minTolerance
      && f.timestamp - s.lastTimestamp[f.id] < s.minTolerance[f.id] / 2.0
    // learned minima are never forgotten
    ensures s.minTolerance.Keys <= o.state.minTolerance.Keys
  {
    var id := f.id;
    if f.dlc != 0 && id !in s.ignoreNext then
      if id in s.lastTimestamp then
        var timeFrame := f.timestamp - s.lastTimestamp[id];
        var last := s.lastTimestamp[id := f.timestamp];
        if id !in s.minTolerance then
          Outcome(TimingState(s.minTolerance[id := timeFrame], last, s.ignoreNext), false)
        else if timeFrame < s.minTolerance[id] / 2.0 then
          Outcome(TimingState(s.minTolerance[id := timeFrame], last, s.ignoreNext), true)
        else if timeFrame < s.minTolerance[id] then
          Outcome(TimingState(s.minTolerance[id := timeFrame], last, s.ignoreNext), false)
        else
          Outcome(TimingState(s.minTolerance, last, s.ignoreNext), false)
      else
        Outcome(s.(lastTimestamp := s.lastTimestamp[id := f.timestamp]), false)
    else if f.dlc != 0 then
      Outcome(s.(ignoreNext := s.ignoreNext - {id}), false)
    else
      Outcome(s.(ignoreNext := s.ignoreNext + {id}), false)
  }

  /** The state after processing `frames` in order, starting from `s`. */
  function Replay(s: TimingState, frames: seq<Frame>): TimingState
    decreases |frames|
  {
    if frames == [] then s
    else Next(Replay(s, frames[..|frames| - 1]), frames[|frames| - 1]).state
  }

  /** The positions in `frames` (the source's counter `i`) at which an attack is reported. */
  function Attacks(s: TimingState, frames: seq<Frame>): (a: seq<nat>)
    decreases |frames|
    ensures forall k :: 0 <= k < |a| ==> a[k] < |frames|
    ensures forall j, k :: 0 <= j < k < |a| ==> a[j] < a[k]
  {
    if frames == [] then []
    else
      var n := |frames| - 1;
      var rest := Attacks(s, frames[..n]);
      if Next(Replay(s, frames[..n]), frames[n]).attack then rest + [n] else rest
  }

  /** The outcome of the step at position `i`. */
  function StepAt(s: TimingState, frames: seq<Frame>, i: nat): Outcome
    requires i < |frames|
  {
    Next(Replay(s, frames[..i]), frames[i])
  }

  /** `Attacks` lists exactly the positions whose step reports an attack. */
  lemma {:induction false} AttacksAreReportedSteps(s: TimingState, frames: seq<Frame>)
    ensures forall i :: i in Attacks(s, frames) <==> 0 <= i < |frames| && StepAt(s, frames, i).attack
    decreases |frames|
  {
    if frames != [] {
      var n := |frames| - 1;
      var prefix := frames[..n];
      AttacksAreReportedSteps(s, prefix);
      assert frames[..n] == prefix;
      forall i | 0 <= i < n
        ensures StepAt(s, prefix, i) == StepAt(s, frames, i)
      {
        assert prefix[..i] == frames[..i];
      }
    }
  }

  /** The detector of `IDS_timeframe.run`: three dictionaries updated in place. */
  class TimingDetector {
    var minTolerance: map<Id, real>
    var lastTimestamp: map<Id, real>
    var ignoreNext: set<Id>

    function State(): TimingState
      reads this
    {
      TimingState(minTolerance, lastTimestamp, ignoreNext)
    }

    constructor ()
      ensures State() == Initial
    {
      minTolerance := map[];
      lastTimestamp := map[];
      ignoreNext := {};
    }

    /** Processes one record and says whether it reported an attack. */
    method Step(f: Frame) returns (attack: bool)
      modifies this
      ensures State() == Next(old(State()), f).state
      ensures attack == Next(old(State()), f).attack
    {
      attack := false;
      var id := f.id;
      if f.dlc != 0 && id !in ignoreNext {
        if id in lastTimestamp {
          var timeFrame := f.timestamp - lastTimestamp[id];
          if id !in minTolerance {
            minTolerance := minTolerance[id := timeFrame];
          } else if timeFrame < minTolerance[id] / 2.0 {
            attack := true;
            minTolerance := minTolerance[id := timeFrame];
          } else if timeFrame < minTolerance[id] {
            minTolerance := minTolerance[id := timeFrame];
          }
        }
        lastTimestamp := lastTimestamp[id := f.timestamp];
      } else if f.dlc != 0 && id in ignoreNext {
        ignoreNext := ignoreNext - {id};
      } else {
        ignoreNext := ignoreNext + {id};
      }
    }
  }

  /** The loop of `IDS_timeframe.run`: a fresh detector steps through the
      stream; the result lists the record positions at which an attack was logged. */
  method Run(frames: seq<Frame>) returns (attacks: seq<nat>)
    ensures attacks == Attacks(Initial, frames)
    ensures forall i :: i in attacks ==> i < |frames| && frames[i].dlc != 0
  {
    var detector := new TimingDetector();
    attacks := [];
    var i := 0;
    while i < |frames|
      invariant 0 <= i <= |frames|
      invariant detector.State() == Replay(Initial, frames[..i])
      invariant attacks == Attacks(Initial, frames[..i])
    {
      assert frames[..i + 1][..i] == frames[..i];
      var attack := detector.Step(frames[i]);
      if attack {
        attacks := attacks + [i];
      }
      i := i + 1;
    }
    assert frames[..|frames|] == frames;
    AttacksAreReportedSteps(Initial, frames);
  }

  // ---------------------------------------------------------------------
  // Properties of the detector over whole streams

  /** Records whose timestamps never decrease, as the bus delivers them. */
  ghost predicate TimeOrdered(frames: seq<Frame>)
  {
    forall j, k :: 0 <= j < k < |frames| ==> frames[j].timestamp <= frames[k].timestamp
  }

  /** Replaying in two pieces is replaying the whole. */
  lemma {:induction false} ReplayAppend(s: TimingState, a: seq<Frame>, b: seq<Frame>)
    ensures Replay(s, a + b) == Replay(Replay(s, a), b)
    decreases |b|
  {
    if b == [] {
      assert a + b == a;
    } else {
      var n := |b| - 1;
      assert (a + b)[..|a + b| - 1] == a + b[..n];
      ReplayAppend(s, a, b[..n]);
    }
  }

  /** On a time-ordered stream, every learned minimum is non-negative and no
      id's last timestamp lies after the newest record. */
  lemma {:induction false} OrderedReplay(frames: seq<Frame>)
    requires TimeOrdered(frames)
    ensures forall y :: y in Replay(Initial, frames).minTolerance ==> 0.0 <= Replay(Initial, frames).minTolerance[y]
    ensures forall y :: y in Replay(Initial, frames).lastTimestamp ==>
      |frames| > 0 && Replay(Initial, frames).lastTimestamp[y] <= frames[|frames| - 1].timestamp
    decreases |frames|
  {
    if frames != [] {
      var n := |frames| - 1;
      var prefix := frames[..n];
      assert TimeOrdered(prefix) by {
        assert forall k :: 0 <= k < n ==> prefix[k] == frames[k];
      }
      OrderedReplay(prefix);
      var s0 := Replay(Initial, prefix);
      var f := frames[n];
      var s := Next(s0, f).state;
      forall y | y in s0.lastTimestamp
        ensures s0.lastTimestamp[y] <= f.timestamp
      {
        if n == 0 {
          assert false;
        }
        assert prefix[n - 1] == frames[n - 1];
        assert frames[n - 1].timestamp <= frames[n].timestamp;
      }
      forall y | y in s.minTolerance
        ensures 0.0 <= s.minTolerance[y]
      {
        if f.dlc != 0 && f.id !in s0.ignoreNext && f.id in s0.lastTimestamp {
          assert AgreeExcept(s.minTolerance, s0.minTolerance, f.id);
          if y != f.id {
            assert y in s0.minTolerance;
          }
        }
      }
    }
  }

  /** On a time-ordered stream, a learned minimum never grows: whatever an id's
      minimum was after the first `k` records, it is at least as large as the
      minimum after all of them. */
  lemma {:induction false} MinNonIncreasing(frames: seq<Frame>, k: nat)
    requires TimeOrdered(frames)
    requires k <= |frames|
    ensures forall y :: y in Replay(Initial, frames[..k]).minTolerance ==>
      && y in Replay(Initial, frames).minTolerance
      && Replay(Initial, frames).minTolerance[y] <= Replay(Initial, frames[..k]).minTolerance[y]
    decreases |frames| - k
  {
    if k == |frames| {
      assert frames[..k] == frames;
    } else {
      var n := |frames| - 1;
      var prefix := frames[..n];
      assert prefix[..k] == frames[..k];
      assert forall j, i :: 0 <= j < i < |prefix| ==> prefix[j] == frames[j] && prefix[i] == frames[i];
      MinNonIncreasing(prefix, k);
      OrderedReplay(prefix);
      var s0 := Replay(Initial, prefix);
      var f := frames[n];
      var s := Next(s0, f).state;
      assert Replay(Initial, frames) == s;
      forall y | y in s0.minTolerance
        ensures y in s.minTolerance && s.minTolerance[y] <= s0.minTolerance[y]
      {
        if f.dlc != 0 && f.id !in s0.ignoreNext && f.id in s0.lastTimestamp {
          assert AgreeExcept(s.minTolerance, s0.minTolerance, f.id);
          if y == f.id {
            assert 0.0 <= s0.minTolerance[y];
          }
        }
      }
    }
  }

  /** Frames of other ids leave an id's entries untouched. */
  lemma {:induction false} OtherIdsLeaveEntry(s: TimingState, others: seq<Frame>, x: Id)
    requires forall k :: 0 <= k < |others| ==> others[k].id != x
    ensures var t := Replay(s, others);
      && (x in t.ignoreNext <==> x in s.ignoreNext)
      && (x in t.lastTimestamp <==> x in s.lastTimestamp)
      && (x in s.lastTimestamp ==> t.lastTimestamp[x] == s.lastTimestamp[x])
      && (x in t.minTolerance <==> x in s.minTolerance)
      && (x in s.minTolerance ==> t.minTolerance[x] == s.minTolerance[x])
    decreases |others|
  {
    if others != [] {
      var n := |others| - 1;
      var t0 := Replay(s, others[..n]);
      OtherIdsLeaveEntry(s, others[..n], x);
      var f := others[n];
      assert f.id != x;
      var t := Next(t0, f).state;
      assert x in t.minTolerance <==> x in t0.minTolerance by {
        assert (t.minTolerance - {f.id}).Keys == t.minTolerance.Keys - {f.id};
        assert (t0.minTolerance - {f.id}).Keys == t0.minTolerance.Keys - {f.id};
      }
      if x in t0.minTolerance {
        assert t.minTolerance[x] == (t.minTolerance - {f.id})[x];
      }
    }
  }

  /** The timestamps of the records of id `x` in `frames`, in stream order. */
  ghost function StampsOf(frames: seq<Frame>, x: Id): seq<real>
    decreases |frames|
  {
    if frames == [] then []
    else
      var n := |frames| - 1;
      StampsOf(frames[..n], x) + if frames[n].id == x then [frames[n].timestamp] else []
  }

  /** In `frames`, every record of id `x` is a data frame and each one follows
      the previous one of `x` exactly `period` seconds later; records of other
      ids may come in between. */
  ghost predicate SteadyCadence(frames: seq<Frame>, x: Id, period: real)
  {
    && (forall k :: 0 <= k < |frames| && frames[k].id == x ==> frames[k].dlc != 0)
    && (forall k :: 0 <= k < |StampsOf(frames, x)| - 1 ==>
          StampsOf(frames, x)[k + 1] - StampsOf(frames, x)[k] == period)
  }

  /** What a steady cadence leaves in the state: `x` is unflagged, stamped
      with its newest timestamp once it has one, and has `period` as its
      minimum once it has two. */
  ghost predicate CadenceState(s: TimingState, stamps: seq<real>, x: Id, period: real)
  {
    && x !in s.ignoreNext
    && (|stamps| > 0 <==> x in s.lastTimestamp)
    && (|stamps| > 0 ==> s.lastTimestamp[x] == stamps[|stamps| - 1])
    && (|stamps| > 1 <==> x in s.minTolerance)
    && (|stamps| > 1 ==> s.minTolerance[x] == period)
  }

  /** One record keeps `CadenceState`: a frame of another id leaves `x`'s
      entries alone, and a data frame of `x` on time is not reported. */
  lemma CadenceStep(s: TimingState, stamps: seq<real>, x: Id, period: real, f: Frame)
    requires 0.0 <= period
    requires CadenceState(s, stamps, x, period)
    requires f.id == x ==> f.dlc != 0 && (|stamps| > 0 ==> f.timestamp - stamps[|stamps| - 1] == period)
    ensures CadenceState(Next(s, f).state, stamps + if f.id == x then [f.timestamp] else [], x, period)
    ensures f.id == x ==> !Next(s, f).attack
  {
    var t := Next(s, f).state;
    if f.id != x && f.dlc != 0 && f.id !in s.ignoreNext && f.id in s.lastTimestamp {
      assert AgreeExcept(t.minTolerance, s.minTolerance, f.id);
    }
  }

  /** Dropping the newest record keeps a steady cadence steady. */
  lemma SteadyCadenceOfPrefix(frames: seq<Frame>, x: Id, period: real)
    requires frames != [] && SteadyCadence(frames, x, period)
    ensures var n := |frames| - 1;
      && StampsOf(frames, x) == StampsOf(frames[..n], x) + (if frames[n].id == x then [frames[n].timestamp] else [])
      && SteadyCadence(frames[..n], x, period)
  {
    var n := |frames| - 1;
    var prefix := frames[..n];
    var before, stamps := StampsOf(prefix, x), StampsOf(frames, x);
    assert stamps == before + if frames[n].id == x then [frames[n].timestamp] else [];
    forall k | 0 <= k < |prefix| && prefix[k].id == x
      ensures prefix[k].dlc != 0
    {
      assert prefix[k] == frames[k];
    }
    forall k | 0 <= k < |before| - 1
      ensures before[k + 1] - before[k] == period
    {
      assert before[k] == stamps[k] && before[k + 1] == stamps[k + 1];
    }
  }

  /** The state a steady cadence leaves: see `CadenceState`. */
  lemma {:induction false} SteadyCadenceState(frames: seq<Frame>, x: Id, period: real)
    requires 0.0 <= period
    requires SteadyCadence(frames, x, period)
    ensures CadenceState(Replay(Initial, frames), StampsOf(frames, x), x, period)
    decreases |frames|
  {
    if frames != [] {
      var n := |frames| - 1;
      var prefix, f := frames[..n], frames[n];
      var before, stamps := StampsOf(prefix, x), StampsOf(frames, x);
      SteadyCadenceOfPrefix(frames, x, period);
      SteadyCadenceState(prefix, x, period);
      if f.id == x && |before| > 0 {
        assert stamps[|before|] - stamps[|before| - 1] == period;
      }
      CadenceStep(Replay(Initial, prefix), before, x, period, f);
    }
  }

  /** An id sending data frames at a steady non-negative period is never
      reported, whatever other ids do in between. Its last timestamp is that of
      its newest frame, and once two of its frames have passed its minimum is
      exactly the period (before that it has none). */
  lemma {:induction false} SteadyCadenceIsQuiet(frames: seq<Frame>, x: Id, period: real)
    requires 0.0 <= period
    requires SteadyCadence(frames, x, period)
    ensures forall i :: 0 <= i < |frames| && frames[i].id == x ==> i !in Attacks(Initial, frames)
    ensures x !in Replay(Initial, frames).ignoreNext
    ensures |StampsOf(frames, x)| > 0 <==> x in Replay(Initial, frames).lastTimestamp
    ensures |StampsOf(frames, x)| > 0 ==>
      Replay(Initial, frames).lastTimestamp[x] == StampsOf(frames, x)[|StampsOf(frames, x)| - 1]
    ensures |StampsOf(frames, x)| > 1 <==> x in Replay(Initial, frames).minTolerance
    ensures |StampsOf(frames, x)| > 1 ==> Replay(Initial, frames).minTolerance[x] == period
    decreases |frames|
  {
    SteadyCadenceState(frames, x, period);
    if frames != [] {
      var n := |frames| - 1;
      var prefix, f := frames[..n], frames[n];
      var before, stamps := StampsOf(prefix, x), StampsOf(frames, x);
      SteadyCadenceOfPrefix(frames, x, period);
      SteadyCadenceIsQuiet(prefix, x, period);
      SteadyCadenceState(prefix, x, period);
      if f.id == x && |before| > 0 {
        assert stamps[|before|] - stamps[|before| - 1] == period;
      }
      CadenceStep(Replay(Initial, prefix), before, x, period, f);
      assert Attacks(Initial, frames) ==
        Attacks(Initial, prefix) + if Next(Replay(Initial, prefix), f).attack then [n] else [];
      forall i | 0 <= i < n && frames[i].id == x
        ensures i !in Attacks(Initial, frames)
      {
        assert prefix[i] == frames[i];
      }
    }
  }

  /** The first two records of a stream are never reported: an attack needs a
      learned minimum, and that takes two earlier data frames of the id. */
  lemma {:induction false} FirstTwoRecordsNeverReported(frames: seq<Frame>)
    ensures forall i :: i in Attacks(Initial, frames) ==> 2 <= i
  {
    AttacksAreReportedSteps(Initial, frames);
    forall i | 0 <= i < |frames| && i < 2
      ensures !StepAt(Initial, frames, i).attack
    {
      if i == 1 {
        var first := frames[..1];
        assert first[..0] == [];
        assert Replay(Initial, first).minTolerance == map[];
      }
    }
  }

  /** A data frame of `x` within half the learned minimum is reported, and
      leaves `x` unflagged, stamped, and with the new interval as its minimum. */
  lemma ReportedBurst(history: seq<Frame>, f: Frame)
    requires f.dlc != 0
    requires var s := Replay(Initial, history);
      && f.id !in s.ignoreNext
      && f.id in s.lastTimestamp && f.id in s.minTolerance
      && f.timestamp - s.lastTimestamp[f.id] < s.minTolerance[f.id] / 2.0
    ensures Attacks(Initial, history + [f]) == Attacks(Initial, history) + [|history|]
    ensures var s, t := Replay(Initial, history), Replay(Initial, history + [f]);
      && f.id !in t.ignoreNext
      && f.id in t.lastTimestamp && t.lastTimestamp[f.id] == f.timestamp
      && f.id in t.minTolerance && t.minTolerance[f.id] == f.timestamp - s.lastTimestamp[f.id]
  {
    assert (history + [f])[..|history|] == history;
  }

  /** A data frame of `x` that comes exactly its learned minimum after the
      previous one (a non-negative minimum) is not reported and keeps that minimum. */
  lemma QuietAtMinimum(before: seq<Frame>, f: Frame, interval: real)
    requires f.dlc != 0 && 0.0 <= interval
    requires var s := Replay(Initial, before);
      && f.id !in s.ignoreNext
      && f.id in s.lastTimestamp && f.id in s.minTolerance
      && s.minTolerance[f.id] == interval
      && f.timestamp - s.lastTimestamp[f.id] == interval
    ensures Attacks(Initial, before + [f]) == Attacks(Initial, before)
    ensures var t := Replay(Initial, before + [f]);
      f.id in t.minTolerance && t.minTolerance[f.id] == interval
  {
    assert (before + [f])[..|before|] == before;
  }

  /** Once id `x` has a learned minimum, a data frame arriving in less than half
      of it is reported, and the minimum drops to the new interval. The next
      data frame of `x` at that same new cadence is then not reported, whatever
      frames of other ids come in between. */
  lemma CollapseReportedOnce(history: seq<Frame>, f1: Frame, others: seq<Frame>, f2: Frame)
    requires f1.id == f2.id && f1.dlc != 0 && f2.dlc != 0
    requires forall k :: 0 <= k < |others| ==> others[k].id != f1.id
    requires var s := Replay(Initial, history);
      && f1.id !in s.ignoreNext
      && f1.id in s.lastTimestamp && f1.id in s.minTolerance
      && 0.0 <= f1.timestamp - s.lastTimestamp[f1.id] < s.minTolerance[f1.id] / 2.0
      && f2.timestamp - f1.timestamp == f1.timestamp - s.lastTimestamp[f1.id]
    ensures Attacks(Initial, history + [f1]) == Attacks(Initial, history) + [|history|]
    ensures Attacks(Initial, history + [f1] + others + [f2]) == Attacks(Initial, history + [f1] + others)
    ensures var s := Replay(Initial, history);
      var t := Replay(Initial, history + [f1] + others + [f2]);
      f1.id in t.minTolerance && t.minTolerance[f1.id] == f1.timestamp - s.lastTimestamp[f1.id]
  {
    var x := f1.id;
    var interval := f1.timestamp - Replay(Initial, history).lastTimestamp[x];
    var h1 := history + [f1];
    ReportedBurst(history, f1);
    ReplayAppend(Initial, h1, others);
    OtherIdsLeaveEntry(Replay(Initial, h1), others, x);
    QuietAtMinimum(h1 + others, f2, interval);
  }

  /** A remote frame of id `x`, then any frames of other ids, then a data frame
      of `x`: that data frame is not reported, and afterwards `x` has exactly the
      last timestamp and minimum it had before the remote frame, with no flag
      left, so the next data frame of `x` is timed as usual. */
  lemma RemoteFrameSuppressesOneDataFrame(history: seq<Frame>, remote: Frame, others: seq<Frame>, data: Frame)
    requires remote.dlc == 0 && data.dlc != 0 && remote.id == data.id
    requires forall k :: 0 <= k < |others| ==> others[k].id != data.id
    ensures var before := history + [remote] + others;
      !Next(Replay(Initial, before), data).attack
    ensures var s := Replay(Initial, history);
      var t := Replay(Initial, history + [remote] + others + [data]);
      && data.id !in t.ignoreNext
      && (data.id in t.lastTimestamp <==> data.id in s.lastTimestamp)
      && (data.id in s.lastTimestamp ==> t.lastTimestamp[data.id] == s.lastTimestamp[data.id])
      && (data.id in t.minTolerance <==> data.id in s.minTolerance)
      && (data.id in s.minTolerance ==> t.minTolerance[data.id] == s.minTolerance[data.id])
  {
    var x := data.id;
    var h1 := history + [remote];
    assert h1[..|history|] == history;
    ReplayAppend(Initial, h1, others);
    OtherIdsLeaveEntry(Replay(Initial, h1), others, x);
    var before := h1 + others;
    assert (before + [data])[..|before|] == before;
  }
}
