/** The transition-based intrusion detector: training learns which arbitration
    id may immediately follow which, as a dense index per id and an N x N
    boolean matrix; detection then counts the consecutive pairs of a second
    stream that training never saw. */
module TransitionIds {
  import opened CanFrames

  // ---------------------------------------------------------------------
  // What training learns, as functions of the training ids

  /** `d` immediately followed `o` somewhere in `ids`. */
  ghost predicate Follows(ids: seq<Id>, o: Id, d: Id)
  {
    exists k :: 0 <= k < |ids| - 1 && ids[k] == o && ids[k + 1] == d
  }

  /** The ids that are immediately followed by some id. */
  ghost function Origins(ids: seq<Id>): set<Id>
  {
    set k | 0 <= k < |ids| - 1 :: ids[k]
  }

  /** The pairs of the last two ids are the only new ones a record adds. */
  lemma FollowsExtend(ids: seq<Id>)
    requires |ids| >= 2
    ensures forall o, d :: Follows(ids, o, d) <==>
      Follows(ids[..|ids| - 1], o, d) || (o == ids[|ids| - 2] && d == ids[|ids| - 1])
    ensures Origins(ids) == Origins(ids[..|ids| - 1]) + {ids[|ids| - 2]}
  {
    var n := |ids| - 1;
    var prefix := ids[..n];
    forall o, d | Follows(ids, o, d) && !(o == ids[n - 1] && d == ids[n])
      ensures Follows(prefix, o, d)
    {
      var k :| 0 <= k < |ids| - 1 && ids[k] == o && ids[k + 1] == d;
      assert prefix[k] == o && prefix[k + 1] == d;
    }
    forall o, d | Follows(prefix, o, d)
      ensures Follows(ids, o, d)
    {
      var k :| 0 <= k < |prefix| - 1 && prefix[k] == o && prefix[k + 1] == d;
      assert ids[k] == o && ids[k + 1] == d;
    }
    assert Follows(ids, ids[n - 1], ids[n]);
    assert forall k :: 0 <= k < n - 1 ==> prefix[k] == ids[k];
  }

  /** The distinct ids of `ids`, in order of first appearance. */
  function Distinct(ids: seq<Id>): (d: seq<Id>)
    decreases |ids|
    ensures forall x :: x in d <==> x in ids
    ensures forall j, k :: 0 <= j < k < |d| ==> d[j] != d[k]
  {
    if ids == [] then []
    else
      var n := |ids| - 1;
      assert ids == ids[..n] + [ids[n]];
      var seen := Distinct(ids[..n]);
      if ids[n] in seen then seen else seen + [ids[n]]
  }

  /** The dense index `unique_id` built from `ids`: the next unused index goes
      to each id on its first appearance, the first record's id included. */
  function UniqueIds(ids: seq<Id>): (u: map<Id, nat>)
    decreases |ids|
    ensures forall x :: x in u <==> x in ids
    ensures forall x :: x in u ==> u[x] < |u|
  {
    if ids == [] then map[]
    else
      var n := |ids| - 1;
      assert ids == ids[..n] + [ids[n]];
      var u := UniqueIds(ids[..n]);
      if ids[n] in u then u else u[ids[n] := |u|]
  }

  /** The dictionary `transitions`: for each origin, the ids that followed it,
      each listed once, in the order they were first seen after it. */
  function TransitionsOf(ids: seq<Id>): (t: map<Id, seq<Id>>)
    decreases |ids|
    ensures forall o, j, k :: o in t && 0 <= j < k < |t[o]| ==> t[o][j] != t[o][k]
  {
    if |ids| < 2 then map[]
    else
      var n := |ids| - 1;
      var t := TransitionsOf(ids[..n]);
      var origin, destination := ids[n - 1], ids[n];
      if origin !in t then t[origin := [destination]]
      else if destination in t[origin] then t
      else t[origin := t[origin] + [destination]]
  }

  /** The origins of `transitions` are exactly the ids some id followed, and
      `transitions[o]` holds exactly the ids that immediately followed `o`. */
  lemma {:induction false} TransitionsAreTrainedPairs(ids: seq<Id>)
    ensures TransitionsOf(ids).Keys == Origins(ids)
    ensures forall o, d :: (o in TransitionsOf(ids) && d in TransitionsOf(ids)[o]) <==> Follows(ids, o, d)
    decreases |ids|
  {
    if |ids| < 2 {
      assert Origins(ids) == {};
    } else {
      var n := |ids| - 1;
      FollowsExtend(ids);
      TransitionsAreTrainedPairs(ids[..n]);
    }
  }

  /** `unique_id` is a bijection from the distinct training ids onto
      0 .. N-1, where N is their number: the id with index k is the k-th
      distinct id in order of first appearance. */
  lemma {:induction false} UniqueIdsIsBijection(ids: seq<Id>)
    ensures |UniqueIds(ids)| == |Distinct(ids)|
    ensures forall x :: x in UniqueIds(ids) ==> Distinct(ids)[UniqueIds(ids)[x]] == x
    ensures forall k :: 0 <= k < |Distinct(ids)| ==>
      Distinct(ids)[k] in UniqueIds(ids) && UniqueIds(ids)[Distinct(ids)[k]] == k
    decreases |ids|
  {
    if ids != [] {
      var n := |ids| - 1;
      var prefix := ids[..n];
      assert ids == prefix + [ids[n]];
      UniqueIdsIsBijection(prefix);
      var u, d := UniqueIds(prefix), Distinct(prefix);
      var x := ids[n];
      assert x in u <==> x in d;
      if x !in u {
        var u', d' := UniqueIds(ids), Distinct(ids);
        assert u' == u[x := |u|] && d' == d + [x];
        forall y | y in u'
          ensures d'[u'[y]] == y
        {
          if y != x {
            assert y in u;
          }
        }
      }
    }
  }

  /** An id, once indexed, keeps its index for the rest of training. */
  lemma {:induction false} IndexNeverChanges(ids: seq<Id>, k: nat)
    requires k <= |ids|
    ensures forall x :: x in UniqueIds(ids[..k]) ==>
      x in UniqueIds(ids) && UniqueIds(ids)[x] == UniqueIds(ids[..k])[x]
    decreases |ids| - k
  {
    if k == |ids| {
      assert ids[..k] == ids;
    } else {
      var n := |ids| - 1;
      var prefix := ids[..n];
      assert prefix[..k] == ids[..k];
      IndexNeverChanges(prefix, k);
      var early: map<Id, nat> := UniqueIds(ids[..k]);
      var u: map<Id, nat> := UniqueIds(prefix);
      var whole: map<Id, nat> := UniqueIds(ids);
      assert whole == if ids[n] in u then u else u[ids[n] := |u|];
      forall x | x in early
        ensures x in whole && whole[x] == early[x]
      {
        assert x in u && u[x] == early[x];
      }
    }
  }

  /** The position of the first occurrence of `x` in `ids`. */
  function FirstIndex(ids: seq<Id>, x: Id): (i: nat)
    requires x in ids
    ensures i < |ids| && ids[i] == x
    ensures forall j :: 0 <= j < i ==> ids[j] != x
  {
    if ids[0] == x then 0 else 1 + FirstIndex(ids[1..], x)
  }

  /** Extending a stream does not move the first occurrence of an id already in it. */
  lemma FirstIndexOfPrefix(ids: seq<Id>, n: nat, x: Id)
    requires n <= |ids| && x in ids[..n]
    ensures x in ids && FirstIndex(ids, x) == FirstIndex(ids[..n], x)
  {
    var i := FirstIndex(ids[..n], x);
    assert ids[i] == x;
    assert forall j :: 0 <= j < i ==> ids[j] == ids[..n][j];
  }

  /** Indices follow the order of first appearance. */
  lemma {:induction false} IndexOrderIsFirstAppearance(ids: seq<Id>, x: Id, y: Id)
    requires x in ids && y in ids
    ensures UniqueIds(ids)[x] < UniqueIds(ids)[y] <==> FirstIndex(ids, x) < FirstIndex(ids, y)
    decreases |ids|
  {
    var n := |ids| - 1;
    var prefix := ids[..n];
    assert ids == prefix + [ids[n]];
    assert ids[..n + 1] == ids;
    UniqueIdsStep(ids, n);
    var u := UniqueIds(prefix);
    if x in prefix {
      FirstIndexOfPrefix(ids, n, x);
    }
    if y in prefix {
      FirstIndexOfPrefix(ids, n, y);
    }
    if x in prefix && y in prefix {
      IndexOrderIsFirstAppearance(prefix, x, y);
    } else if x in prefix {
      // y appears first at the last record and gets the newest index
      assert y == ids[n] && y !in u;
      assert FirstIndex(ids, y) == n;
    } else if y in prefix {
      assert x == ids[n] && x !in u;
      assert FirstIndex(ids, x) == n;
    }
  }

  // ---------------------------------------------------------------------
  // Training, as the source does it

  /** One more training record extends the index as the loop body does. */
  lemma UniqueIdsStep(ids: seq<Id>, i: nat)
    requires i < |ids|
    ensures UniqueIds(ids[..i + 1]) ==
      var u := UniqueIds(ids[..i]);
      if ids[i] in u then u else u[ids[i] := |u|]
  {
    assert ids[..i + 1][..i] == ids[..i];
  }

  /** One more training record extends the dictionary as the loop body does. */
  lemma TransitionsStep(ids: seq<Id>, i: nat)
    requires 0 < i < |ids|
    ensures TransitionsOf(ids[..i + 1]) ==
      var t, o, d := TransitionsOf(ids[..i]), ids[i - 1], ids[i];
      if o !in t then t[o := [d]]
      else if d in t[o] then t
      else t[o := t[o] + [d]]
  {
    assert ids[..i + 1][..i] == ids[..i];
  }

  /** The training loop of `IDS_transitions.run`: fills `unique_id` and
      `transitions` record by record. */
  method Learn(training: seq<Frame>) returns (uniqueId: map<Id, nat>, transitions: map<Id, seq<Id>>)
    ensures uniqueId == UniqueIds(IdsOf(training))
    ensures transitions == TransitionsOf(IdsOf(training))
  {
    ghost var ids := IdsOf(training);
    var i := 0;
    var lastId: Id := 0;
    var matrixIndex := 0;
    uniqueId := map[];
    transitions := map[];
    while i < |training|
      invariant 0 <= i <= |training|
      invariant i > 0 ==> lastId == training[i - 1].id
      invariant uniqueId == UniqueIds(ids[..i])
      invariant transitions == TransitionsOf(ids[..i])
      invariant matrixIndex == |uniqueId|
    {
      var id := training[i].id;
      UniqueIdsStep(ids, i);
      if i > 0 {
        TransitionsStep(ids, i);
      }
      if i == 0 {
        lastId := id;
      } else if lastId !in transitions {
        transitions := transitions[lastId := [id]];
      } else if id !in transitions[lastId] {
        transitions := transitions[lastId := transitions[lastId] + [id]];
      }
      lastId := id;
      if id !in uniqueId {
        uniqueId := uniqueId[id := matrixIndex];
        matrixIndex := matrixIndex + 1;
      }
      i := i + 1;
    }
    assert ids[..|training|] == ids;
  }

  /** `uniqueId` numbers its keys 0 .. N-1 without gaps or repeats, and
      `order` lists the keys by number. */
  ghost predicate DenseIndex(uniqueId: map<Id, nat>, order: seq<Id>)
  {
    && |order| == |uniqueId|
    && (forall x :: x in uniqueId ==> uniqueId[x] < |order| && order[uniqueId[x]] == x)
    && (forall k :: 0 <= k < |order| ==> order[k] in uniqueId && uniqueId[order[k]] == k)
  }

  /** The inner loop of the matrix population: sets the cell of `origin` and
      each of its destinations, and no other cell. */
  method MarkRow(matrix: array2<bool>, uniqueId: map<Id, nat>, origin: Id, destinations: seq<Id>, ghost order: seq<Id>)
    requires DenseIndex(uniqueId, order)
    requires matrix.Length0 == |uniqueId| && matrix.Length1 == |uniqueId|
    requires origin in uniqueId
    requires forall d :: d in destinations ==> d in uniqueId
    modifies matrix
    ensures forall i, j :: 0 <= i < matrix.Length0 && 0 <= j < matrix.Length1 ==>
      (matrix[i, j] <==> old(matrix[i, j]) || (order[i] == origin && order[j] in destinations))
  {
    var k := 0;
    while k < |destinations|
      invariant 0 <= k <= |destinations|
      invariant forall i, j :: 0 <= i < matrix.Length0 && 0 <= j < matrix.Length1 ==>
        (matrix[i, j] <==> old(matrix[i, j]) || (order[i] == origin && order[j] in destinations[..k]))
    {
      var destination := destinations[k];
      assert destinations[..k + 1] == destinations[..k] + [destination];
      matrix[uniqueId[origin], uniqueId[destination]] := true;
      k := k + 1;
    }
    assert destinations[..k] == destinations;
  }

  /** The outer loop of the matrix population: on an all-false N x N matrix,
      sets the cell of every origin and each of its destinations. */
  method MarkTransitions(matrix: array2<bool>, uniqueId: map<Id, nat>, transitions: map<Id, seq<Id>>, ghost order: seq<Id>)
    requires DenseIndex(uniqueId, order)
    requires forall o :: o in transitions ==> o in uniqueId
    requires forall o, d :: o in transitions && d in transitions[o] ==> d in uniqueId
    requires matrix.Length0 == |uniqueId| && matrix.Length1 == |uniqueId|
    requires forall i, j :: 0 <= i < matrix.Length0 && 0 <= j < matrix.Length1 ==> !matrix[i, j]
    modifies matrix
    ensures forall o, d :: o in uniqueId && d in uniqueId ==>
      (matrix[uniqueId[o], uniqueId[d]] <==> o in transitions && d in transitions[o])
  {
    var n := |uniqueId|;
    var remaining := transitions.Keys;
    ghost var done: set<Id> := {};
    while remaining != {}
      invariant done <= transitions.Keys && remaining == transitions.Keys - done
      invariant forall i, j :: 0 <= i < n && 0 <= j < n ==>
        (matrix[i, j] <==> order[i] in done && order[j] in transitions[order[i]])
      decreases remaining
    {
      var origin :| origin in remaining;
      MarkRow(matrix, uniqueId, origin, transitions[origin], order);
      forall i, j | 0 <= i < n && 0 <= j < n
        ensures matrix[i, j] <==> order[i] in done + {origin} && order[j] in transitions[order[i]]
      {
      }
      remaining := remaining - {origin};
      done := done + {origin};
    }
    CellsByIds(matrix, uniqueId, transitions, order);
  }

  /** Read through a dense index, a matrix whose cell (i, j) says whether the
      i-th id is followed by the j-th one says so for every pair of ids. */
  lemma CellsByIds(matrix: array2<bool>, uniqueId: map<Id, nat>, transitions: map<Id, seq<Id>>, order: seq<Id>)
    requires DenseIndex(uniqueId, order)
    requires matrix.Length0 == |uniqueId| && matrix.Length1 == |uniqueId|
    requires forall i, j :: 0 <= i < |uniqueId| && 0 <= j < |uniqueId| ==>
      (matrix[i, j] <==> order[i] in transitions && order[j] in transitions[order[i]])
    ensures forall o, d :: o in uniqueId && d in uniqueId ==>
      (matrix[uniqueId[o], uniqueId[d]] <==> o in transitions && d in transitions[o])
  {
    forall o, d | o in uniqueId && d in uniqueId
      ensures matrix[uniqueId[o], uniqueId[d]] <==> o in transitions && d in transitions[o]
    {
      assert order[uniqueId[o]] == o && order[uniqueId[d]] == d;
    }
  }

  /** The matrix population of `IDS_transitions.run`: a new N x N matrix, all
      false, then the cell of every origin and each of its destinations set.
      The index must be dense for the cells to stand for distinct pairs. */
  method FillMatrix(uniqueId: map<Id, nat>, transitions: map<Id, seq<Id>>, ghost order: seq<Id>)
    returns (matrix: array2<bool>)
    requires DenseIndex(uniqueId, order)
    requires forall o :: o in transitions ==> o in uniqueId
    requires forall o, d :: o in transitions && d in transitions[o] ==> d in uniqueId
    ensures fresh(matrix)
    ensures matrix.Length0 == |uniqueId| && matrix.Length1 == |uniqueId|
    ensures forall o, d :: o in uniqueId && d in uniqueId ==>
      (matrix[uniqueId[o], uniqueId[d]] <==> o in transitions && d in transitions[o])
  {
    var n := |uniqueId|;
    matrix := new bool[n, n]((_, _) => false);
    MarkTransitions(matrix, uniqueId, transitions, order);
  }

  /** The whole training half of `IDS_transitions.run`: `Learn`, then `FillMatrix`. */
  method Train(training: seq<Frame>) returns (uniqueId: map<Id, nat>, transitions: map<Id, seq<Id>>, matrix: array2<bool>)
    ensures uniqueId == UniqueIds(IdsOf(training))
    ensures transitions == TransitionsOf(IdsOf(training))
    ensures fresh(matrix)
    ensures matrix.Length0 == |uniqueId| && matrix.Length1 == |uniqueId|
    ensures forall o, d :: o in uniqueId && d in uniqueId ==>
      (matrix[uniqueId[o], uniqueId[d]] <==> Follows(IdsOf(training), o, d))
  {
    uniqueId, transitions := Learn(training);
    ghost var ids := IdsOf(training);
    ghost var order := Distinct(ids);
    TrainedIndexCoversPairs(ids);
    matrix := FillMatrix(uniqueId, transitions, order);
    TransitionsAreTrainedPairs(ids);
    forall o, d | o in uniqueId && d in uniqueId
      ensures matrix[uniqueId[o], uniqueId[d]] <==> Follows(ids, o, d)
    {
      assert matrix[uniqueId[o], uniqueId[d]] <==> o in transitions && d in transitions[o];
    }
  }

  /** After training every origin and destination has an index, and the
      index is dense: no lookup of the matrix population can fail. */
  lemma TrainedIndexCoversPairs(ids: seq<Id>)
    ensures DenseIndex(UniqueIds(ids), Distinct(ids))
    ensures forall o :: o in TransitionsOf(ids) ==> o in UniqueIds(ids)
    ensures forall o, d :: o in TransitionsOf(ids) && d in TransitionsOf(ids)[o] ==> d in UniqueIds(ids)
  {
    UniqueIdsIsBijection(ids);
    TransitionsAreTrainedPairs(ids);
    forall o, d | o in TransitionsOf(ids) && d in TransitionsOf(ids)[o]
      ensures o in UniqueIds(ids) && d in UniqueIds(ids)
    {
      var k :| 0 <= k < |ids| - 1 && ids[k] == o && ids[k + 1] == d;
    }
  }

  // ---------------------------------------------------------------------
  // Detection

  /** The lookup at line 204 of the source fails for an id that training never indexed. */
  datatype KeyError = KeyError(key: Id)

  datatype Result<T> = Ok(value: T) | Err(error: KeyError)

  /** What the detection loop yields on the ids `ids`, given the training ids:
      the anomaly count, or the KeyError that aborts it at the first pair with
      exactly one unknown id. */
  ghost function Detection(training: seq<Id>, ids: seq<Id>): (r: Result<nat>)
    decreases |ids|
    // zero or one record: nothing to compare
    ensures |ids| <= 1 ==> r == Ok(0)
    // at most one anomaly per consecutive pair
    ensures r.Ok? && |ids| > 0 ==> r.value <= |ids| - 1
  {
    if |ids| < 2 then Ok(0)
    else
      var n := |ids| - 1;
      match Detection(training, ids[..n])
      case Err(e) => Err(e)
      case Ok(count) =>
        var a, b := ids[n - 1], ids[n];
        if a !in training && b !in training then Ok(count + 1)
        else if a !in training then Err(KeyError(a))
        else if b !in training then Err(KeyError(b))
        else if Follows(training, a, b) then Ok(count)
        else Ok(count + 1)
  }

  /** A pair whose ids are one known to training and one not. */
  ghost predicate HalfKnown(training: seq<Id>, a: Id, b: Id)
  {
    (a in training) != (b in training)
  }

  /** Detection fails exactly when some consecutive pair is half known, and the
      key it fails on is an id of the stream that training never saw. */
  lemma {:induction false} DetectionFailsOnHalfKnownPair(training: seq<Id>, ids: seq<Id>)
    ensures Detection(training, ids).Err? <==>
      exists k :: 0 <= k < |ids| - 1 && HalfKnown(training, ids[k], ids[k + 1])
    ensures Detection(training, ids).Err? ==>
      Detection(training, ids).error.key in ids && Detection(training, ids).error.key !in training
    decreases |ids|
  {
    if |ids| >= 2 {
      var n := |ids| - 1;
      var prefix := ids[..n];
      DetectionFailsOnHalfKnownPair(training, prefix);
      assert forall k :: 0 <= k < n ==> prefix[k] == ids[k];
      if exists k :: 0 <= k < |prefix| - 1 && HalfKnown(training, prefix[k], prefix[k + 1]) {
        var k :| 0 <= k < |prefix| - 1 && HalfKnown(training, prefix[k], prefix[k + 1]);
        assert HalfKnown(training, ids[k], ids[k + 1]);
      }
      if Detection(training, ids).Err? && Detection(training, prefix).Ok? {
        assert HalfKnown(training, ids[n - 1], ids[n]);
      }
    }
  }

  /** The first half-known pair decides the failure: the key is its left id
      when that one is unknown, its right id otherwise, because the left
      lookup at line 204 of the source is evaluated first. */
  lemma FirstHalfKnownPairDecidesKey(training: seq<Id>, ids: seq<Id>, k: nat)
    requires k < |ids| - 1 && HalfKnown(training, ids[k], ids[k + 1])
    requires forall j :: 0 <= j < k ==> !HalfKnown(training, ids[j], ids[j + 1])
    ensures Detection(training, ids) ==
      Err(KeyError(if ids[k] !in training then ids[k] else ids[k + 1]))
  {
    var before := ids[..k + 1];
    forall j | 0 <= j < |before| - 1
      ensures !HalfKnown(training, before[j], before[j + 1])
    {
      assert before[j] == ids[j] && before[j + 1] == ids[j + 1];
    }
    DetectionFailsOnHalfKnownPair(training, before);
    DetectionStep(training, ids, k + 1);
    ErrorPersists(training, ids, k + 2);
  }

  /** Detection reports no anomaly and no failure exactly when every
      consecutive pair of the stream also occurred in training. */
  lemma {:induction false} DetectionCleanIffAllPairsTrained(training: seq<Id>, ids: seq<Id>)
    ensures Detection(training, ids) == Ok(0) <==>
      forall k :: 0 <= k < |ids| - 1 ==> Follows(training, ids[k], ids[k + 1])
    decreases |ids|
  {
    if |ids| >= 2 {
      var n := |ids| - 1;
      var prefix := ids[..n];
      DetectionCleanIffAllPairsTrained(training, prefix);
      assert forall k :: 0 <= k < n ==> prefix[k] == ids[k];
      var a, b := ids[n - 1], ids[n];
      if Follows(training, a, b) {
        var k :| 0 <= k < |training| - 1 && training[k] == a && training[k + 1] == b;
        assert a in training && b in training;
      }
      if Detection(training, ids) == Ok(0) {
        assert Detection(training, prefix) == Ok(0);
      }
    }
  }

  /** Once the detection loop has failed it stays failed. */
  lemma {:induction false} ErrorPersists(training: seq<Id>, ids: seq<Id>, k: nat)
    requires k <= |ids|
    requires Detection(training, ids[..k]).Err?
    ensures Detection(training, ids) == Detection(training, ids[..k])
    decreases |ids| - k
  {
    if k == |ids| {
      assert ids[..k] == ids;
    } else {
      var n := |ids| - 1;
      assert ids[..n][..k] == ids[..k];
      ErrorPersists(training, ids[..n], k);
    }
  }

  /** One more record adds the verdict on the pair it closes. */
  lemma DetectionStep(training: seq<Id>, ids: seq<Id>, i: nat)
    requires 0 < i < |ids|
    requires Detection(training, ids[..i]).Ok?
    ensures var count, a, b := Detection(training, ids[..i]).value, ids[i - 1], ids[i];
      Detection(training, ids[..i + 1]) ==
        if a !in training && b !in training then Ok(count + 1)
        else if a !in training then Err(KeyError(a))
        else if b !in training then Err(KeyError(b))
        else if Follows(training, a, b) then Ok(count)
        else Ok(count + 1)
  {
    assert ids[..i + 1][..i] == ids[..i];
  }

  /** The detection loop of `IDS_transitions.run`. It only reads the model. */
  method Detect(ghost training: seq<Id>, uniqueId: map<Id, nat>, matrix: array2<bool>, detection: seq<Frame>)
    returns (r: Result<nat>)
    requires forall x :: x in uniqueId <==> x in training
    requires forall x :: x in uniqueId ==> uniqueId[x] < matrix.Length0 && uniqueId[x] < matrix.Length1
    requires forall o, d :: o in uniqueId && d in uniqueId ==>
      (matrix[uniqueId[o], uniqueId[d]] <==> Follows(training, o, d))
    ensures r == Detection(training, IdsOf(detection))
  {
    ghost var ids := IdsOf(detection);
    var i := 0;
    var lastId: Id := 0;
    var anomalyCounter := 0;
    while i < |detection|
      invariant 0 <= i <= |detection|
      invariant i > 0 ==> lastId == detection[i - 1].id
      invariant Detection(training, ids[..i]) == Ok(anomalyCounter)
    {
      var id := detection[i].id;
      if i != 0 {
        DetectionStep(training, ids, i);
        if lastId !in uniqueId && id !in uniqueId {
          anomalyCounter := anomalyCounter + 1;
        } else if lastId !in uniqueId {
          ErrorPersists(training, ids, i + 1);
          return Err(KeyError(lastId));
        } else if id !in uniqueId {
          ErrorPersists(training, ids, i + 1);
          return Err(KeyError(id));
        } else if !matrix[uniqueId[lastId], uniqueId[id]] {
          anomalyCounter := anomalyCounter + 1;
        }
      }
      i := i + 1;
      lastId := id;
    }
    assert ids[..|detection|] == ids;
    r := Ok(anomalyCounter);
  }

  /** The three figures the source prints at the end of a run. */
  datatype Summary = Summary(anomalies: nat, transitions: nat, uniqueIds: nat)

  /** `IDS_transitions.run`: train, then detect. The printed transition figure
      is the number of distinct origins, and the unique-id figure the number of
      distinct training ids. */
  method RunTransitions(training: seq<Frame>, detection: seq<Frame>) returns (r: Result<Summary>)
    ensures Detection(IdsOf(training), IdsOf(detection)).Err? ==>
      r == Err(Detection(IdsOf(training), IdsOf(detection)).error)
    ensures Detection(IdsOf(training), IdsOf(detection)).Ok? ==>
      r == Ok(Summary(Detection(IdsOf(training), IdsOf(detection)).value,
                      |Origins(IdsOf(training))|, |Distinct(IdsOf(training))|))
  {
    ghost var ids := IdsOf(training);
    var uniqueId, transitions, matrix := Train(training);
    assert forall x :: x in uniqueId <==> x in ids;
    var detected := Detect(ids, uniqueId, matrix, detection);
    match detected
    case Err(e) =>
      r := Err(e);
    case Ok(anomalies) =>
      TransitionsAreTrainedPairs(ids);
      UniqueIdsIsBijection(ids);
      assert |transitions| == |transitions.Keys|;
      r := Ok(Summary(anomalies, |transitions|, |uniqueId|));
  }

  // ---------------------------------------------------------------------
  // Properties of the transition model

  /** Detection on the training stream itself finds no anomaly. */
  lemma TrainingStreamIsClean(training: seq<Id>)
    ensures Detection(training, training) == Ok(0)
  {
    DetectionCleanIffAllPairsTrained(training, training);
    forall k | 0 <= k < |training| - 1
      ensures Follows(training, training[k], training[k + 1])
    {
    }
  }

  /** A pair of two ids unknown to training adds exactly one anomaly. */
  lemma UnseenPairCounted(training: seq<Id>, ids: seq<Id>, a: Id, b: Id, count: nat)
    requires a !in training && b !in training
    requires Detection(training, ids + [a]) == Ok(count)
    ensures Detection(training, ids + [a, b]) == Ok(count + 1)
  {
    var longer := ids + [a, b];
    assert longer[..|longer| - 1] == ids + [a];
  }

  /** Training on 1, 2, 3, 1 indexes 1, 2, 3 as 0, 1, 2 and learns exactly the
      pairs 1->2, 2->3 and 3->1. */
  lemma CycleTraining()
    ensures UniqueIds([1, 2, 3, 1]) == map[1 := 0, 2 := 1, 3 := 2]
    ensures forall o, d :: Follows([1, 2, 3, 1], o, d) <==> (o, d) in {(1, 2), (2, 3), (3, 1)}
  {
    var t: seq<Id> := [1, 2, 3, 1];
    assert t[..3] == [1, 2, 3];
    assert t[..3][..2] == [1, 2];
    assert t[..3][..2][..1] == [1];
    assert UniqueIds([1]) == map[1 := 0];
    assert UniqueIds([1, 2]) == map[1 := 0, 2 := 1];
    assert UniqueIds([1, 2, 3]) == map[1 := 0, 2 := 1, 3 := 2];
    forall o, d | Follows(t, o, d)
      ensures (o, d) in {(1, 2), (2, 3), (3, 1)}
    {
      var k :| 0 <= k < |t| - 1 && t[k] == o && t[k + 1] == d;
    }
    assert t[0] == 1 && t[1] == 2 && t[2] == 3 && t[3] == 1;
    assert Follows(t, 1, 2) && Follows(t, 2, 3) && Follows(t, 3, 1);
  }

  /** With the training of `CycleTraining`, replaying the training stream finds
      nothing, and the unseen pair 1 -> 3 is one anomaly. */
  lemma CycleDetection()
    ensures Detection([1, 2, 3, 1], [1, 2, 3, 1]) == Ok(0)
    ensures Detection([1, 2, 3, 1], [1, 3]) == Ok(1)
  {
    var t: seq<Id> := [1, 2, 3, 1];
    TrainingStreamIsClean(t);
    var d: seq<Id> := [1, 3];
    assert d[..1] == [1];
    assert t[0] == 1 && t[2] == 3;
    assert !Follows(t, 1, 3);
  }

  /** Training on 10, 20, 10 indexes 10 as 0 and 20 as 1 and learns 10->20 and
      20->10; the pair 10 -> 10 is then an anomaly. */
  lemma TwoIdScenario()
    ensures UniqueIds([10, 20, 10]) == map[10 := 0, 20 := 1]
    ensures forall o, d :: Follows([10, 20, 10], o, d) <==> (o, d) in {(10, 20), (20, 10)}
    ensures Detection([10, 20, 10], [10, 20, 10]) == Ok(0)
    ensures Detection([10, 20, 10], [10, 10]) == Ok(1)
  {
    var t: seq<Id> := [10, 20, 10];
    assert t[..2] == [10, 20];
    assert t[..2][..1] == [10];
    assert UniqueIds([10]) == map[10 := 0];
    assert UniqueIds([10, 20]) == map[10 := 0, 20 := 1];
    forall o, d | Follows(t, o, d)
      ensures (o, d) in {(10, 20), (20, 10)}
    {
      var k :| 0 <= k < |t| - 1 && t[k] == o && t[k + 1] == d;
    }
    assert t[0] == 10 && t[1] == 20 && t[2] == 10;
    assert Follows(t, 10, 20) && Follows(t, 20, 10);
    TrainingStreamIsClean(t);
    var d: seq<Id> := [10, 10];
    assert d[..1] == [10];
    assert !Follows(t, 10, 10);
  }

  /** A pair with exactly one id unknown to training aborts detection with a
      KeyError on the unknown id, whichever side it is on. */
  lemma HalfKnownPairRaisesKeyError()
    ensures Detection([10, 20, 10], [10, 30]) == Err(KeyError(30))
    ensures Detection([10, 20, 10], [30, 10]) == Err(KeyError(30))
    ensures Detection([10, 20, 10], [30, 40, 10]) == Err(KeyError(40))
    ensures Detection([10, 20, 10], [30, 10, 40]) == Err(KeyError(30))
  {
    var d1: seq<Id> := [10, 30];
    assert d1[..1] == [10];
    var d2: seq<Id> := [30, 10];
    assert d2[..1] == [30];
    var d3: seq<Id> := [30, 40, 10];
    assert d3[..2] == [30, 40] && d3[..2][..1] == [30];
    var d4: seq<Id> := [30, 10, 40];
    assert d4[..2] == [30, 10] && d4[..2][..1] == [30];
  }

  /** The printed transition figure counts origins, not pairs: training on
      1, 2, 1, 3 learns three pairs but reports two transitions. */
  lemma TransitionFigureCountsOrigins()
    ensures |Origins([1, 2, 1, 3])| == 2
    ensures TransitionsOf([1, 2, 1, 3]) == map[1 := [2, 3], 2 := [1]]
  {
    var t: seq<Id> := [1, 2, 1, 3];
    assert t[0] == 1 && t[1] == 2 && t[2] == 1;
    assert Origins(t) == {1, 2};
    assert t[..3] == [1, 2, 1];
    assert t[..3][..2] == [1, 2];
    assert TransitionsOf([1, 2]) == map[1 := [2]];
    assert TransitionsOf([1, 2, 1]) == map[1 := [2], 2 := [1]];
    assert 3 !in [2] && [2] + [3] == [2, 3];
    assert TransitionsOf(t) == map[1 := [2], 2 := [1]][1 := [2] + [3]];
  }
}
