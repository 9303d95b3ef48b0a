/**
 * The top-k drivers over the sequential engine: the ungrouped one splits
 * `0..ntuples-1` into contiguous parts of ceiling-division size, runs the
 * engine on every part, splices the per-part results in part order and runs
 * the engine once more on the merged vector; the grouped one runs the engine
 * per group and splices in group order.  The engine itself (and the variant a
 * worker runs with its part's own random sample) is a parameter.
 */
module ParTop {
  import opened Wrappers
  import opened Seqs
  import opened Prefs

  /** What the engine returns: the indices, and (level, index) pairs when levels are asked for. */
  datatype FlexList = FlexList(first: seq<int>, second: seq<(int, int)>)

  /** The returned table: an `.indices` column alone, or `.indices` with `.level`. */
  datatype Frame = Indices(indices: seq<int>) | IndicesLevels(indices: seq<int>, levels: seq<int>)

  /** The sequential top-k engine: preference, index vector, whether to compute levels. */
  type Engine = (Pref, seq<int>, bool) -> FlexList

  /** The engine as the worker for part (or group) `k` runs it, with that part's own sample. */
  type Worker = (Pref, nat, seq<int>, bool) -> FlexList

  // ---------------------------------------------------------------------------
  // Partition arithmetic

  /** `ceil(a / b)` for `b >= 1`. */
  function CeilDiv(a: nat, b: nat): (q: nat)
    requires b >= 1
    ensures a <= q * b < a + b
  {
    var q := (a + b - 1) / b;
    assert a + b - 1 == q * b + (a + b - 1) % b;
    q
  }

  lemma MulCancel(x: int, y: int, m: int)
    requires m >= 1 && x * m < y * m
    ensures x < y
  {
    assert (y - x) * m > 0;
  }

  /** Tuples per part: `ceil(ntuples / N)`. */
  function TuplesPart(n: nat, N: nat): (tp: nat)
    requires N >= 1
    ensures n >= 1 ==> tp >= 1
  {
    CeilDiv(n, N)
  }

  /**
   * The number of parts actually used, `ceil(ntuples / tuples_part)`: at least
   * one and at most `N`, and just enough parts of `tuples_part` to hold every tuple.
   */
  function NParts(n: nat, N: nat): (np: nat)
    requires n >= 1 && N >= 1
    ensures 1 <= np <= N
    ensures (np - 1) * TuplesPart(n, N) < n <= np * TuplesPart(n, N)
  {
    var tp := TuplesPart(n, N);
    var np := CeilDiv(n, tp);
    assert (np - 1) * tp == np * tp - tp;
    MulCancel(np - 1, N, tp);
    np
  }

  /** The size of part `k`: `tuples_part`, except the last, which takes what is left. */
  function PartSize(n: nat, N: nat, k: nat): (size: nat)
    requires n >= 1 && N >= 1 && k < NParts(n, N)
    ensures 1 <= size <= TuplesPart(n, N)
    ensures k < NParts(n, N) - 1 ==> size == TuplesPart(n, N)
  {
    var tp, np := TuplesPart(n, N), NParts(n, N);
    assert np * tp == (np - 1) * tp + tp;
    if k == np - 1 then n - (np - 1) * tp else tp
  }

  /** Part `k` holds the consecutive indices from `k * tuples_part` on. */
  function Partitions(n: nat, N: nat): (parts: seq<seq<int>>)
    requires n >= 1 && N >= 1
    ensures |parts| == NParts(n, N)
  {
    var tp, np := TuplesPart(n, N), NParts(n, N);
    seq(np, k requires 0 <= k < np => Range(k * tp, PartSize(n, N, k)))
  }

  /** The first `m` parts (all but possibly the last) cover `0..m * tuples_part - 1`. */
  lemma {:induction false} PartitionsPrefix(n: nat, N: nat, m: nat)
    requires n >= 1 && N >= 1 && m < NParts(n, N)
    ensures Flatten(Partitions(n, N)[..m]) == Range(0, m * TuplesPart(n, N))
  {
    var parts := Partitions(n, N);
    if m == 0 {
      assert parts[..0] == [];
    } else {
      var tp := TuplesPart(n, N);
      var before := (m - 1) * tp;
      PartitionsPrefix(n, N, m - 1);
      assert parts[..m][..m - 1] == parts[..m - 1];
      assert parts[m - 1] == Range(before, tp);
      assert Flatten(parts[..m]) == Range(0, before) + Range(before, tp);
      RangeConcat(0, before, tp);
      MulStep(m, tp);
    }
  }

  lemma MulStep(m: nat, tp: nat)
    requires m >= 1
    ensures (m - 1) * tp + tp == m * tp
  {
  }

  /** The parts together are `0..ntuples-1`, each index once, in ascending order. */
  lemma PartitionsCover(n: nat, N: nat)
    requires n >= 1 && N >= 1
    ensures Flatten(Partitions(n, N)) == Iota(n)
  {
    var parts, tp, np := Partitions(n, N), TuplesPart(n, N), NParts(n, N);
    PartitionsPrefix(n, N, np - 1);
    assert parts[..np][..np - 1] == parts[..np - 1];
    assert parts[..np] == parts;
    RangeConcat(0, (np - 1) * tp, n - (np - 1) * tp);
  }

  /** Where part `k` starts: `k * tuples_part`, and `ntuples` once every part is done. */
  function PartStart(n: nat, N: nat, k: nat): nat
    requires n >= 1 && N >= 1 && k <= NParts(n, N)
  {
    if k < NParts(n, N) then k * TuplesPart(n, N) else n
  }

  /** Part `k` starts where part `k - 1` ended, and is the range from its start. */
  lemma PartStep(n: nat, N: nat, k: nat)
    requires n >= 1 && N >= 1 && k < NParts(n, N)
    ensures PartStart(n, N, k) + PartSize(n, N, k) == PartStart(n, N, k + 1)
    ensures Partitions(n, N)[k] == Range(PartStart(n, N, k), PartSize(n, N, k))
  {
    var tp := TuplesPart(n, N);
    assert (k + 1) * tp == k * tp + tp;
  }

  /** Writes `start, start+1, ...` into a fresh vector of `len` slots, counting as it goes. */
  method NumberFrom(start: int, len: nat) returns (part: seq<int>, count: int)
    ensures part == Range(start, len) && count == start + len
  {
    var a := new int[len];
    count := start;
    for i := 0 to len
      invariant count == start + i
      invariant a[..i] == Range(start, i)
    {
      a[i] := count;
      assert a[..i + 1] == a[..i] + [count];
      count := count + 1;
    }
    part := a[..];
    assert part == a[..len];
  }

  /**
   * Builds the parts the way the driver does: part `k` gets `tuples_part`
   * slots, the last one what is left, numbered by a running `count`.
   */
  method MakePartitions(ntuples: nat, N: nat) returns (vs: seq<seq<int>>)
    requires ntuples >= 1 && N >= 1
    ensures vs == Partitions(ntuples, N)
  {
    var tuplesPart := TuplesPart(ntuples, N);
    var nParts := NParts(ntuples, N);
    ghost var spec := Partitions(ntuples, N);
    var parts := new seq<int>[nParts];
    var count := 0;
    for k := 0 to nParts
      invariant count == PartStart(ntuples, N, k)
      invariant parts[..k] == spec[..k]
    {
      var localN;
      if k == nParts - 1 {
        localN := ntuples - count;
      } else {
        localN := tuplesPart;
      }
      assert localN == PartSize(ntuples, N, k);
      PartStep(ntuples, N, k);
      var part;
      part, count := NumberFrom(count, localN);
      parts[k] := part;
      assert parts[..k + 1] == parts[..k] + [spec[k]];
    }
    vs := parts[..];
    assert vs == parts[..nParts];
  }

  // ---------------------------------------------------------------------------
  // Running the workers and merging

  /** Worker `k` on part `k`, for every part. */
  function WorkerRuns(worker: Worker, t: Pref, vs: seq<seq<int>>, levels: bool): (rs: seq<FlexList>)
    ensures |rs| == |vs|
  {
    seq(|vs|, k requires 0 <= k < |vs| => worker(t, k, vs[k], levels))
  }

  /** The engine on every group. */
  function EngineRuns(engine: Engine, t: Pref, vs: seq<seq<int>>, levels: bool): (rs: seq<FlexList>)
    ensures |rs| == |vs|
  {
    seq(|vs|, k requires 0 <= k < |vs| => engine(t, vs[k], levels))
  }

  function Firsts(rs: seq<FlexList>): (ss: seq<seq<int>>)
    ensures |ss| == |rs|
  {
    seq(|rs|, k requires 0 <= k < |rs| => rs[k].first)
  }

  function Seconds(rs: seq<FlexList>): (ss: seq<seq<(int, int)>>)
    ensures |ss| == |rs|
  {
    seq(|rs|, k requires 0 <= k < |rs| => rs[k].second)
  }

  /**
   * The parallel phase, run one part after another: worker `k` on part `k`,
   * its result stored at slot `k`.
   */
  method RunWorkers(worker: Worker, t: Pref, vs: seq<seq<int>>, levels: bool) returns (results: seq<FlexList>)
    ensures results == WorkerRuns(worker, t, vs, levels)
  {
    var slots := new FlexList[|vs|];
    for k := 0 to |vs|
      invariant forall j | 0 <= j < k :: slots[j] == worker(t, j, vs[j], levels)
    {
      slots[k] := worker(t, k, vs[k], levels);
    }
    results := slots[..];
  }

  /** Splices the lists one after another onto the end of an initially empty list. */
  method Splice<T>(lists: seq<seq<T>>) returns (res: seq<T>)
    ensures res == Flatten(lists)
  {
    res := [];
    for k := 0 to |lists|
      invariant res == Flatten(lists[..k])
    {
      assert lists[..k + 1][..k] == lists[..k];
      res := res + lists[k];
    }
    assert lists[..|lists|] == lists;
  }

  /**
   * When every worker returns a sub-multiset of its part, the merged vector
   * holds each index of `0..ntuples-1` at most once.
   */
  lemma MergedWithin(worker: Worker, t: Pref, n: nat, N: nat)
    requires n >= 1 && N >= 1
    ensures (forall k: nat, v: seq<int> :: multiset(worker(t, k, v, false).first) <= multiset(v)) ==>
      multiset(Flatten(Firsts(WorkerRuns(worker, t, Partitions(n, N), false)))) <= multiset(Iota(n))
  {
    if forall k: nat, v: seq<int> :: multiset(worker(t, k, v, false).first) <= multiset(v) {
      var parts := Partitions(n, N);
      var rs := Firsts(WorkerRuns(worker, t, parts, false));
      forall k | 0 <= k < |rs|
        ensures multiset(rs[k]) <= multiset(parts[k])
      {
        assert rs[k] == worker(t, k, parts[k], false).first;
      }
      FlattenWithin(rs, parts);
      PartitionsCover(n, N);
    }
  }

  // ---------------------------------------------------------------------------
  // Level output

  function Levels(pairs: seq<(int, int)>): (ls: seq<int>)
    ensures |ls| == |pairs|
  {
    seq(|pairs|, c requires 0 <= c < |pairs| => pairs[c].0)
  }

  function Inds(pairs: seq<(int, int)>): (ix: seq<int>)
    ensures |ix| == |pairs|
  {
    seq(|pairs|, c requires 0 <= c < |pairs| => pairs[c].1)
  }

  /** Pairs a level column with an index column, position by position. */
  function Zip(levels: seq<int>, ind: seq<int>): (pairs: seq<(int, int)>)
    requires |levels| == |ind|
    ensures |pairs| == |levels|
  {
    seq(|levels|, c requires 0 <= c < |levels| => (levels[c], ind[c]))
  }

  /**
   * Walks the (level, index) list and fills the two output columns: position
   * `c` gets the level from the pair's first component and the index from its
   * second, so zipping the columns gives the list back.
   */
  method SplitLevels(pairs: seq<(int, int)>) returns (ind: seq<int>, levels: seq<int>)
    ensures ind == Inds(pairs) && levels == Levels(pairs)
    ensures Zip(levels, ind) == pairs
  {
    var nres := |pairs|;
    var indA := new int[nres];
    var levelsA := new int[nres];
    var count := 0;
    while count < nres
      invariant 0 <= count <= nres
      invariant forall c | 0 <= c < count :: levelsA[c] == pairs[c].0 && indA[c] == pairs[c].1
    {
      levelsA[count] := pairs[count].0;
      indA[count] := pairs[count].1;
      count := count + 1;
    }
    ind, levels := indA[..], levelsA[..];
  }

  /**
   * The table returned for an engine result: the index list as `.indices`, or,
   * with levels, two columns that zip back to the (level, index) list.
   */
  function Output(res: FlexList, showLevels: bool): (r: Frame)
    ensures r.IndicesLevels? <==> showLevels
    ensures !showLevels ==> r.indices == res.first
    ensures showLevels ==> |r.levels| == |r.indices| && Zip(r.levels, r.indices) == res.second
  {
    if showLevels then IndicesLevels(Inds(res.second), Levels(res.second)) else Indices(res.first)
  }

  // ---------------------------------------------------------------------------
  // Ungrouped top-k

  /**
   * The vector the final engine run receives: `0..ntuples-1` for `N == 1`,
   * otherwise the per-part worker results spliced in part order.
   */
  function EngineInput(worker: Worker, t: Pref, n: nat, N: nat): (r: seq<int>)
    requires n >= 1 && N >= 1
    ensures N == 1 ==> r == Iota(n)
    ensures (forall k: nat, v: seq<int> :: multiset(worker(t, k, v, false).first) <= multiset(v)) ==>
      multiset(r) <= multiset(Iota(n))
  {
    if N == 1 then Iota(n)
    else
      MergedWithin(worker, t, n, N);
      Flatten(Firsts(WorkerRuns(worker, t, Partitions(n, N), false)))
  }

  /**
   * Ungrouped top-k selection: an empty table gives empty `.indices` and
   * `.level` columns before the preference is built; otherwise the engine runs
   * on `0..ntuples-1` (`N == 1`) or on the merged part results.
   */
  method PrefSelectTop(scores: seq<seq<real>>, serial: Serial, N: int, showLevels: bool,
                       engine: Engine, worker: Worker)
    returns (r: Result<Frame, DeserializeError>)
    requires |scores| > 0 && N >= 1
    ensures |scores[0]| == 0 ==> r == Ok(IndicesLevels([], []))
    ensures |scores[0]| > 0 ==> var built := CreatePreferenceFixed(serial, scores, 0);
      && (r.Ok? <==> WellFormed(serial) && LeafCount(serial) <= |scores|)
      && (r.Err? <==> built.Err?)
      && (r.Err? ==> r.error == built.error)
      && (r.Ok? ==> r.value == Output(engine(built.value, EngineInput(worker, built.value, |scores[0]|, N), showLevels), showLevels))
  {
    var ntuples := |scores[0]|;
    if ntuples == 0 {
      return Ok(IndicesLevels([], []));
    }
    var built := CreatePreferenceFixed(serial, scores, 0);
    FixedBuilds(serial, scores, 0);
    if built.Err? {
      return Err(built.error);
    }
    var p := built.value;
    var res: FlexList;
    if N == 1 {
      var v := IndexVector(ntuples);
      res := engine(p, v, showLevels);
    } else {
      var vs := MakePartitions(ntuples, N);
      var runs := RunWorkers(worker, p, vs, false);
      var merged := Splice(Firsts(runs));
      res := engine(p, merged, showLevels);
    }
    if !showLevels {
      r := Ok(Indices(res.first));
    } else {
      var ind, levels := SplitLevels(res.second);
      r := Ok(IndicesLevels(ind, levels));
    }
  }

  // ---------------------------------------------------------------------------
  // Grouped top-k

  /** Per group: worker `i` for `N > 1`, otherwise the engine. */
  function GroupRuns(engine: Engine, worker: Worker, N: int, t: Pref, groups: seq<seq<int>>, levels: bool): seq<FlexList>
  {
    if N > 1 then WorkerRuns(worker, t, groups, levels) else EngineRuns(engine, t, groups, levels)
  }

  /** The grouped table: per-group indices (or pairs) spliced in group order. */
  function GroupedOutput(engine: Engine, worker: Worker, N: int, t: Pref, groups: seq<seq<int>>, showLevels: bool): Frame
  {
    if showLevels then
      var pairs := Flatten(Seconds(GroupRuns(engine, worker, N, t, groups, true)));
      IndicesLevels(Inds(pairs), Levels(pairs))
    else
      Indices(Flatten(Firsts(GroupRuns(engine, worker, N, t, groups, false))))
  }

  /** Sequentially, groups are independent: the result for `a + b` is `a`'s followed by `b`'s. */
  lemma EngineGroupsAppend(engine: Engine, t: Pref, a: seq<seq<int>>, b: seq<seq<int>>, levels: bool)
    ensures Flatten(Firsts(EngineRuns(engine, t, a + b, levels)))
         == Flatten(Firsts(EngineRuns(engine, t, a, levels))) + Flatten(Firsts(EngineRuns(engine, t, b, levels)))
    ensures Flatten(Seconds(EngineRuns(engine, t, a + b, levels)))
         == Flatten(Seconds(EngineRuns(engine, t, a, levels))) + Flatten(Seconds(EngineRuns(engine, t, b, levels)))
  {
    var ra, rb := EngineRuns(engine, t, a, levels), EngineRuns(engine, t, b, levels);
    assert EngineRuns(engine, t, a + b, levels) == ra + rb;
    assert Firsts(ra + rb) == Firsts(ra) + Firsts(rb);
    assert Seconds(ra + rb) == Seconds(ra) + Seconds(rb);
    FlattenAppend(Firsts(ra), Firsts(rb));
    FlattenAppend(Seconds(ra), Seconds(rb));
  }

  /**
   * When every run returns a sub-multiset of its input, the grouped indices
   * are taken from the groups.
   */
  lemma GroupedWithin(engine: Engine, worker: Worker, N: int, t: Pref, groups: seq<seq<int>>)
    requires forall k: nat, v: seq<int> :: multiset(worker(t, k, v, false).first) <= multiset(v)
    requires forall v: seq<int> :: multiset(engine(t, v, false).first) <= multiset(v)
    ensures multiset(Flatten(Firsts(GroupRuns(engine, worker, N, t, groups, false)))) <= multiset(Flatten(groups))
  {
    var rs := Firsts(GroupRuns(engine, worker, N, t, groups, false));
    forall k | 0 <= k < |rs|
      ensures multiset(rs[k]) <= multiset(groups[k])
    {
      if N > 1 {
        assert rs[k] == worker(t, k, groups[k], false).first;
      } else {
        assert rs[k] == engine(t, groups[k], false).first;
      }
    }
    FlattenWithin(rs, groups);
  }

  /** The sequential branch: the engine on each group, its result spliced onto `res`. */
  method RunEngineOnGroups(engine: Engine, t: Pref, groups: seq<seq<int>>, levels: bool)
    returns (firsts: seq<int>, seconds: seq<(int, int)>)
    ensures firsts == Flatten(Firsts(EngineRuns(engine, t, groups, levels)))
    ensures seconds == Flatten(Seconds(EngineRuns(engine, t, groups, levels)))
  {
    firsts, seconds := [], [];
    for i := 0 to |groups|
      invariant firsts == Flatten(Firsts(EngineRuns(engine, t, groups[..i], levels)))
      invariant seconds == Flatten(Seconds(EngineRuns(engine, t, groups[..i], levels)))
    {
      var tres := engine(t, groups[i], levels);
      assert groups[..i + 1] == groups[..i] + [groups[i]];
      EngineGroupsAppend(engine, t, groups[..i], [groups[i]], levels);
      FlattenOne(tres.first);
      FlattenOne(tres.second);
      firsts := firsts + tres.first;
      seconds := seconds + tres.second;
    }
    assert groups[..|groups|] == groups;
  }

  /**
   * Grouped top-k selection: zero groups give empty `.indices` and `.level`
   * columns before the preference is built; otherwise every group is run (by
   * its own worker for `N > 1`, else by the engine) and the results are
   * spliced in group order, as indices or as (level, index) pairs.
   */
  method GroupedPrefSelTop(groups: seq<seq<int>>, scores: seq<seq<real>>, serial: Serial, N: int,
                           showLevels: bool, engine: Engine, worker: Worker)
    returns (r: Result<Frame, DeserializeError>)
    ensures |groups| == 0 ==> r == Ok(IndicesLevels([], []))
    ensures |groups| > 0 ==> var built := CreatePreferenceFixed(serial, scores, 0);
      && (r.Ok? <==> WellFormed(serial) && LeafCount(serial) <= |scores|)
      && (r.Err? <==> built.Err?)
      && (r.Err? ==> r.error == built.error)
      && (r.Ok? ==> r.value == GroupedOutput(engine, worker, N, built.value, groups, showLevels))
  {
    var nind := |groups|;
    if nind == 0 {
      return Ok(IndicesLevels([], []));
    }
    var built := CreatePreferenceFixed(serial, scores, 0);
    FixedBuilds(serial, scores, 0);
    if built.Err? {
      return Err(built.error);
    }
    var p := built.value;
    if !showLevels {
      var res;
      if N > 1 {
        var runs := RunWorkers(worker, p, groups, false);
        res := Splice(Firsts(runs));
      } else {
        var unusedPairs;
        res, unusedPairs := RunEngineOnGroups(engine, p, groups, false);
      }
      r := Ok(Indices(res));
    } else {
      var res;
      if N > 1 {
        var runs := RunWorkers(worker, p, groups, true);
        res := Splice(Seconds(runs));
      } else {
        var unusedIndices;
        unusedIndices, res := RunEngineOnGroups(engine, p, groups, true);
      }
      var ind, levels := SplitLevels(res);
      r := Ok(IndicesLevels(ind, levels));
    }
  }
}
