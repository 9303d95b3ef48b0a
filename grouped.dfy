/**
 * Grouped preference selection: one preference tree, evaluated by BNL or
 * top-k BNL on every group of tuple indices, the per-group results spliced
 * onto one list in group order.
 */
module Grouped {
  import opened Wrappers
  import opened Seqs
  import opened Prefs
  import opened BnlSpec
  import Bnl

  /** Every group is non-empty and refers only to tuples `t` can compare. */
  predicate GroupsValid(t: Pref, groups: seq<seq<int>>)
  {
    forall g | g in groups :: |g| > 0 && AllValid(t, g)
  }

  /**
   * One group's contribution: the BNL window for `topk == -1`, else its top-k.
   * It takes only that group's indices, each at most as often as it occurs,
   * and top-k keeps `min(topk, |g|)` of them.
   */
  function GroupResult(t: Pref, g: seq<int>, topk: int): (r: seq<int>)
    requires |g| > 0 && AllValid(t, g) && topk >= -1
    ensures multiset(r) <= multiset(g)
    ensures topk >= 0 ==> |r| == Min(topk, |g|)
  {
    if topk == -1 then
      PassPartition(t, g);
      Pass(t, g).window
    else
      TopKSubMultiset(t, g, topk);
      TopK(t, g, topk)
  }

  /** The result of every group, in group order. */
  function GroupResults(t: Pref, groups: seq<seq<int>>, topk: int): (rs: seq<seq<int>>)
    requires GroupsValid(t, groups) && topk >= -1
    ensures |rs| == |groups|
    ensures forall i | 0 <= i < |groups| :: rs[i] == GroupResult(t, groups[i], topk)
  {
    seq(|groups|, i requires 0 <= i < |groups| => GroupResult(t, groups[i], topk))
  }

  /** The per-group results concatenated in group order. */
  function GroupedResult(t: Pref, groups: seq<seq<int>>, topk: int): seq<int>
    requires GroupsValid(t, groups) && topk >= -1
  {
    Flatten(GroupResults(t, groups, topk))
  }

  // ---------------------------------------------------------------------------
  // Properties

  /** The first `i + 1` groups: the first `i` and then group `i`. */
  lemma GroupedPrefix(t: Pref, groups: seq<seq<int>>, i: int, topk: int)
    requires GroupsValid(t, groups) && 0 <= i < |groups| && topk >= -1
    ensures GroupsValid(t, groups[..i]) && GroupsValid(t, groups[..i + 1])
    ensures GroupedResult(t, groups[..i + 1], topk) == GroupedResult(t, groups[..i], topk) + GroupResult(t, groups[i], topk)
  {
    assert groups[..i + 1] == groups[..i] + [groups[i]];
    assert forall g | g in groups[..i] :: g in groups;
    GroupedSnoc(t, groups[..i], groups[i], topk);
  }

  /** Zero groups give an empty result. */
  lemma NoGroups(t: Pref, topk: int)
    requires topk >= -1
    ensures GroupedResult(t, [], topk) == []
  {
  }

  lemma GroupsValidAppend(t: Pref, a: seq<seq<int>>, b: seq<seq<int>>)
    requires GroupsValid(t, a) && GroupsValid(t, b)
    ensures GroupsValid(t, a + b)
  {
    forall g | g in a + b
      ensures |g| > 0 && AllValid(t, g)
    {
      assert g in a || g in b;
    }
  }

  /** Groups are evaluated independently: the result for `a + b` is `a`'s followed by `b`'s. */
  lemma GroupedAppend(t: Pref, a: seq<seq<int>>, b: seq<seq<int>>, topk: int)
    requires GroupsValid(t, a) && GroupsValid(t, b) && topk >= -1
    ensures GroupsValid(t, a + b)
    ensures GroupedResult(t, a + b, topk) == GroupedResult(t, a, topk) + GroupedResult(t, b, topk)
  {
    GroupsValidAppend(t, a, b);
    var ra, rb := GroupResults(t, a, topk), GroupResults(t, b, topk);
    var rab := GroupResults(t, a + b, topk);
    forall i | 0 <= i < |a| + |b|
      ensures rab[i] == (ra + rb)[i]
    {
      if i < |a| {
        assert (a + b)[i] == a[i];
      } else {
        assert (a + b)[i] == b[i - |a|];
      }
    }
    assert rab == ra + rb;
    FlattenAppend(ra, rb);
  }

  /** One more group appends its own result. */
  lemma GroupedSnoc(t: Pref, groups: seq<seq<int>>, g: seq<int>, topk: int)
    requires GroupsValid(t, groups) && |g| > 0 && AllValid(t, g) && topk >= -1
    ensures GroupsValid(t, groups + [g])
    ensures GroupedResult(t, groups + [g], topk) == GroupedResult(t, groups, topk) + GroupResult(t, g, topk)
  {
    GroupsValidAppend(t, groups, [g]);
    var rs := GroupResults(t, groups, topk);
    assert GroupResults(t, groups + [g], topk) == rs + [GroupResult(t, g, topk)];
    assert (rs + [GroupResult(t, g, topk)])[..|rs|] == rs;
  }

  /** The whole result takes only indices of the groups. */
  lemma {:induction false} GroupedWithin(t: Pref, groups: seq<seq<int>>, topk: int)
    requires GroupsValid(t, groups) && topk >= -1
    ensures multiset(GroupedResult(t, groups, topk)) <= multiset(Flatten(groups))
    decreases |groups|
  {
    if groups != [] {
      var front, last := groups[..|groups| - 1], groups[|groups| - 1];
      assert forall g | g in front :: g in groups;
      assert groups == front + [last];
      GroupedWithin(t, front, topk);
      GroupedSnoc(t, front, last, topk);
    }
  }

  /** The number of indices top-k keeps over all groups: `min(topk, |g|)` per group. */
  function TopKSize(groups: seq<seq<int>>, topk: nat): nat
  {
    if groups == [] then 0 else TopKSize(groups[..|groups| - 1], topk) + Min(topk, |groups[|groups| - 1]|)
  }

  /** With `topk >= 0` each group contributes exactly `min(topk, |group|)` indices. */
  lemma {:induction false} GroupedSize(t: Pref, groups: seq<seq<int>>, topk: nat)
    requires GroupsValid(t, groups)
    ensures |GroupedResult(t, groups, topk)| == TopKSize(groups, topk)
    decreases |groups|
  {
    if groups != [] {
      var front, last := groups[..|groups| - 1], groups[|groups| - 1];
      assert forall g | g in front :: g in groups;
      assert groups == front + [last];
      GroupedSize(t, front, topk);
      GroupedSnoc(t, front, last, topk);
    }
  }

  /** Under a preference without union nodes, each group contributes exactly its own skyline. */
  lemma GroupSkyline(t: Pref, g: seq<int>)
    requires |g| > 0 && AllValid(t, g) && UnionFree(t)
    ensures GroupResult(t, g, -1) == Skyline(t, g)
  {
    UnionFreeIsStrictPartialOrder(t, g);
    PassIsSkyline(t, g);
  }

  // ---------------------------------------------------------------------------
  // The driver

  /** Groups of in-range indices are valid for a tree built over the score columns. */
  lemma BuiltGroupsValid(t: Pref, scores: seq<seq<real>>, groups: seq<seq<int>>)
    requires |scores| > 0 && forall col | col in scores :: |col| == |scores[0]|
    requires LeavesFrom(t, scores)
    requires forall g | g in groups :: |g| > 0 && forall i | i in g :: 0 <= i < |scores[0]|
    ensures GroupsValid(t, groups)
  {
    forall g, i | g in groups && i in g
      ensures Valid(t, i)
    {
      BuiltTreeValid(t, scores, |scores[0]|, i);
    }
  }

  /**
   * The per-group loop: BNL (`topk == -1`) or top-k BNL on each group, the
   * group's result spliced onto the end of `res`.
   */
  method RunGroups(groups: seq<seq<int>>, p: Pref, topk: int) returns (res: seq<int>)
    requires GroupsValid(p, groups) && topk >= -1
    ensures res == GroupedResult(p, groups, topk)
  {
    res := [];
    var nind := |groups|;
    if topk == -1 {
      for i := 0 to nind
        invariant GroupsValid(p, groups[..i]) && res == GroupedResult(p, groups[..i], topk)
      {
        var tres := Bnl.BnlInternal(groups[i], p);
        GroupedPrefix(p, groups, i, topk);
        res := res + tres;
      }
    } else {
      for i := 0 to nind
        invariant GroupsValid(p, groups[..i]) && res == GroupedResult(p, groups[..i], topk)
      {
        var tres := Bnl.BnlTopkInternal(groups[i], p, topk);
        GroupedPrefix(p, groups, i, topk);
        res := res + tres;
      }
    }
    assert groups[..nind] == groups;
  }

  /**
   * Grouped selection: the preference is built once (column numbering from 0)
   * and every group is evaluated against that same tree.
   */
  method GroupedPrefSel(groups: seq<seq<int>>, scores: seq<seq<real>>, serial: Serial, topk: int)
    returns (r: Result<seq<int>, DeserializeError>)
    requires |scores| > 0 && forall col | col in scores :: |col| == |scores[0]|
    requires forall g | g in groups :: |g| > 0 && forall i | i in g :: 0 <= i < |scores[0]|
    requires topk >= -1
    ensures var built := CreatePreference(serial, scores, 0);
      && (r.Err? <==> built.Err?)
      && (r.Err? ==> r.error == built.error)
    ensures r.Ok? <==> WellFormed(serial) && forall c | c in AsWrittenColumns(serial, 0) :: 0 <= c < |scores|
    ensures r.Ok? ==> var t := CreatePreference(serial, scores, 0).value;
      && GroupsValid(t, groups)
      && r.value == GroupedResult(t, groups, topk)
  {
    var built := CreatePreference(serial, scores, 0);
    AsWrittenBuilds(serial, scores, 0);
    if built.Err? {
      return Err(built.error);
    }
    var p := built.value;
    BuiltGroupsValid(p, scores, groups);
    var res := RunGroups(groups, p, topk);
    return Ok(res);
  }
}
