/**
 * What one Block-Nested-Loop pass computes, stated as functions over the
 * index sequence, and what is proved about it: the window is never empty,
 * its members never dominate one another, it is a subsequence of the input,
 * every input tuple either stays or is dominated, and, when dominance is a
 * strict partial order, the window is exactly the skyline.  The recursive
 * top-k on the residual tuples is specified on top of one pass.
 */
module BnlSpec {
  import opened Prefs
  import opened Seqs

  // ---------------------------------------------------------------------------
  // One candidate against the window

  /**
   * The outcome of scanning the window with one candidate: the window after
   * the members the candidate beats are erased, those erased members in
   * window order, and whether a member beat the candidate (which stops the scan).
   */
  datatype ScanResult = ScanResult(window: seq<int>, evicted: seq<int>, dominated: bool)

  function Scan(p: Pref, w: seq<int>, c: int): (r: ScanResult)
    requires AllValid(p, w) && Valid(p, c)
    ensures forall x | x in r.window || x in r.evicted :: x in w
    ensures |r.window| + |r.evicted| == |w|
    ensures r.dominated ==> r.window != []
    decreases |w|
  {
    if w == [] then ScanResult([], [], false)
    else if Cmp(p, w[0], c) then ScanResult(w, [], true)
    else
      var rest := Scan(p, w[1..], c);
      assert w == [w[0]] + w[1..];
      if Cmp(p, c, w[0]) then rest.(evicted := [w[0]] + rest.evicted)
      else rest.(window := [w[0]] + rest.window)
  }

  /**
   * What a scan decides: the kept and erased members split the window; a
   * dominated candidate was beaten by a member still in the window; an
   * undominated one is beaten by no member and beats no member left; every
   * erased member is one the candidate beats.
   */
  lemma {:induction false} ScanFacts(p: Pref, w: seq<int>, c: int)
    requires AllValid(p, w) && Valid(p, c)
    ensures var r := Scan(p, w, c);
      && multiset(r.window) + multiset(r.evicted) == multiset(w)
      && (r.dominated ==> exists x | x in r.window :: Cmp(p, x, c))
      && (!r.dominated ==> forall x | x in w :: !Cmp(p, x, c))
      && (!r.dominated ==> forall x | x in r.window :: !Cmp(p, c, x))
      && (forall x | x in r.evicted :: Cmp(p, c, x))
  {
    ScanSplit(p, w, c);
    ScanVerdict(p, w, c);
  }

  /** The kept and erased members split the window, as multisets. */
  lemma {:induction false} ScanSplit(p: Pref, w: seq<int>, c: int)
    requires AllValid(p, w) && Valid(p, c)
    ensures multiset(Scan(p, w, c).window) + multiset(Scan(p, w, c).evicted) == multiset(w)
    decreases |w|
  {
    if w != [] && !Cmp(p, w[0], c) {
      var rest := Scan(p, w[1..], c);
      ScanSplit(p, w[1..], c);
      assert w == [w[0]] + w[1..];
      assert multiset(w) == multiset{w[0]} + multiset(w[1..]);
      if Cmp(p, c, w[0]) {
        assert Scan(p, w, c) == rest.(evicted := [w[0]] + rest.evicted);
      } else {
        assert Scan(p, w, c) == rest.(window := [w[0]] + rest.window);
      }
    }
  }

  /** Who beats whom in a scan, member by member. */
  lemma {:induction false} ScanVerdict(p: Pref, w: seq<int>, c: int)
    requires AllValid(p, w) && Valid(p, c)
    ensures var r := Scan(p, w, c);
      && (r.dominated ==> exists x | x in r.window :: Cmp(p, x, c))
      && (!r.dominated ==> forall x | x in w :: !Cmp(p, x, c))
      && (!r.dominated ==> forall x | x in r.window :: !Cmp(p, c, x))
      && (forall x | x in r.evicted :: Cmp(p, c, x))
    decreases |w|
  {
    if w != [] && !Cmp(p, w[0], c) {
      ScanVerdict(p, w[1..], c);
      assert w == [w[0]] + w[1..];
    }
  }

  // ---------------------------------------------------------------------------
  // One pass over the input

  /** The window and, in the order they left it or were rejected, the residual tuples. */
  datatype PassResult = PassResult(window: seq<int>, residual: seq<int>)

  /**
   * The window seeded with the first tuple; each further tuple scans it, and is
   * appended at the tail unless a member beats it.  Erased members and rejected
   * candidates go to the residual.
   */
  function Pass(p: Pref, v: seq<int>): (r: PassResult)
    requires |v| > 0 && AllValid(p, v)
    ensures |r.window| > 0
    ensures forall x | x in r.window || x in r.residual :: x in v
    ensures |r.window| + |r.residual| == |v|
    decreases |v|
  {
    if |v| == 1 then PassResult([v[0]], [])
    else
      var front := v[..|v| - 1];
      var c := v[|v| - 1];
      assert v == front + [c];
      var prev := Pass(p, front);
      var s := Scan(p, prev.window, c);
      if s.dominated then PassResult(s.window, prev.residual + s.evicted + [c])
      else PassResult(s.window + [c], prev.residual + s.evicted)
  }

  /**
   * Top-k: the whole input when it has at most k tuples; otherwise the first k
   * window members, or the whole window followed by the top-(k - |window|) of
   * the residual.
   */
  function TopK(p: Pref, v: seq<int>, k: nat): (r: seq<int>)
    requires |v| > 0 && AllValid(p, v)
    ensures |r| == Min(k, |v|)
    decreases |v|
  {
    if k >= |v| then v
    else
      var pass := Pass(p, v);
      if |pass.window| >= k then
        assert pass.window == pass.window[..k] + pass.window[k..];
        pass.window[..k]
      else
        pass.window + TopK(p, pass.residual, k - |pass.window|)
  }

  /** Every input tuple ends in exactly one of the window and the residual. */
  lemma {:induction false} PassPartition(p: Pref, v: seq<int>)
    requires |v| > 0 && AllValid(p, v)
    ensures multiset(Pass(p, v).window) + multiset(Pass(p, v).residual) == multiset(v)
    decreases |v|
  {
    if |v| > 1 {
      var front, c := v[..|v| - 1], v[|v| - 1];
      assert v == front + [c];
      PassPartition(p, front);
      ScanSplit(p, Pass(p, front).window, c);
    }
  }

  /** The top-k result takes each input tuple at most as often as it occurs. */
  lemma {:induction false} TopKSubMultiset(p: Pref, v: seq<int>, k: nat)
    requires |v| > 0 && AllValid(p, v)
    ensures multiset(TopK(p, v, k)) <= multiset(v)
    decreases |v|
  {
    if k < |v| {
      var pass := Pass(p, v);
      PassPartition(p, v);
      var w, res := pass.window, pass.residual;
      if |w| >= k {
        PrefixWithin(w, k, v);
      } else {
        TopKSubMultiset(p, res, k - |w|);
        AppendWithin(w, TopK(p, res, k - |w|), res, v);
      }
    }
  }

  // ---------------------------------------------------------------------------
  // Reference definitions

  ghost predicate Dominated(p: Pref, u: seq<int>, x: int)
    requires AllValid(p, u) && Valid(p, x)
  {
    exists y | y in u :: Cmp(p, y, x)
  }

  /** No member of `w` dominates another (or itself). */
  ghost predicate Pairwise(p: Pref, w: seq<int>)
    requires AllValid(p, w)
  {
    forall a, b | a in w && b in w :: !Cmp(p, a, b)
  }

  /** The elements of `s`, in order, that no element of `u` dominates. */
  ghost function Undominated(p: Pref, s: seq<int>, u: seq<int>): (r: seq<int>)
    requires AllValid(p, s) && AllValid(p, u)
    ensures forall x | x in r :: x in s
    decreases |s|
  {
    if s == [] then []
    else
      var x := s[|s| - 1];
      Undominated(p, s[..|s| - 1], u) + (if Dominated(p, u, x) then [] else [x])
  }

  /** The skyline: the tuples of `v`, in order, that no tuple of `v` dominates. */
  ghost function Skyline(p: Pref, v: seq<int>): seq<int>
    requires AllValid(p, v)
  {
    Undominated(p, v, v)
  }

  /** The members of `w`, in order, that `c` does not dominate. */
  function Survivors(p: Pref, w: seq<int>, c: int): seq<int>
    requires AllValid(p, w) && Valid(p, c)
    decreases |w|
  {
    if w == [] then [] else (if Cmp(p, c, w[0]) then [] else [w[0]]) + Survivors(p, w[1..], c)
  }

  // ---------------------------------------------------------------------------
  // Properties of one pass that hold for every preference

  /** The window never holds two tuples one of which dominates the other. */
  lemma {:induction false} PassPairwise(p: Pref, v: seq<int>)
    requires |v| > 0 && AllValid(p, v)
    ensures Pairwise(p, Pass(p, v).window)
    decreases |v|
  {
    if |v| == 1 {
      assert !Cmp(p, v[0], v[0]);
    } else {
      var front, c := v[..|v| - 1], v[|v| - 1];
      PassPairwise(p, front);
      assert !Cmp(p, c, c);
      var w := Pass(p, front).window;
      var s := Scan(p, w, c);
      var w' := Pass(p, v).window;
      ScanFacts(p, w, c);
      assert forall a | a in s.window :: a in w;
      if !s.dominated {
        assert w' == s.window + [c];
        forall a, b | a in w' && b in w'
          ensures !Cmp(p, a, b)
        {
          if a != c && b != c {
            assert a in w && b in w;
          }
        }
      }
    }
  }

  lemma {:induction false} ScanSubseq(p: Pref, w: seq<int>, c: int)
    requires AllValid(p, w) && Valid(p, c)
    ensures IsSubseq(Scan(p, w, c).window, w)
    decreases |w|
  {
    if w == [] {
    } else if Cmp(p, w[0], c) {
      SubseqRefl(w);
    } else {
      ScanSubseq(p, w[1..], c);
      var rest := Scan(p, w[1..], c);
      if !Cmp(p, c, w[0]) {
        assert ([w[0]] + rest.window)[1..] == rest.window;
      }
    }
  }

  /** The window is a subsequence of the input: arrival order is kept. */
  lemma {:induction false} PassSubseq(p: Pref, v: seq<int>)
    requires |v| > 0 && AllValid(p, v)
    ensures IsSubseq(Pass(p, v).window, v)
    decreases |v|
  {
    if |v| == 1 {
      SubseqRefl(v);
    } else {
      var front, c := v[..|v| - 1], v[|v| - 1];
      assert v == front + [c];
      var w := Pass(p, front).window;
      PassSubseq(p, front);
      ScanSubseq(p, w, c);
      var s := Scan(p, w, c);
      SubseqTrans(s.window, w, front);
      if s.dominated {
        SubseqExtend(s.window, front, c);
      } else {
        SubseqSnoc(s.window, front, c);
      }
    }
  }

  /** Every input tuple ends in the window or is dominated by some input tuple. */
  lemma {:induction false} PassCovers(p: Pref, v: seq<int>)
    requires |v| > 0 && AllValid(p, v)
    ensures forall x | x in v :: x in Pass(p, v).window || Dominated(p, v, x)
    decreases |v|
  {
    if |v| > 1 {
      var front, c := v[..|v| - 1], v[|v| - 1];
      assert v == front + [c];
      PassCovers(p, front);
      var w := Pass(p, front).window;
      var s := Scan(p, w, c);
      var w' := Pass(p, v).window;
      ScanFacts(p, w, c);
      forall x | x in v
        ensures x in w' || Dominated(p, v, x)
      {
        if x in front {
          if x in w {
            assert x in multiset(s.window) + multiset(s.evicted);
            if x in s.evicted {
              assert Cmp(p, c, x);
            }
          } else {
            var y :| y in front && Cmp(p, y, x);
          }
        } else {
          assert x == c;
          if s.dominated {
            var z :| z in s.window && Cmp(p, z, c);
          }
        }
      }
    }
  }

  // ---------------------------------------------------------------------------
  // When dominance is a strict partial order, the window is the skyline

  lemma {:induction false} UndominatedMember(p: Pref, s: seq<int>, u: seq<int>, x: int)
    requires AllValid(p, s) && AllValid(p, u)
    ensures x in Undominated(p, s, u) <==> x in s && Valid(p, x) && !Dominated(p, u, x)
    decreases |s|
  {
    if s != [] {
      var front := s[..|s| - 1];
      assert s == front + [s[|s| - 1]];
      UndominatedMember(p, front, u, x);
    }
  }

  lemma SpoSub(p: Pref, u: seq<int>, s: seq<int>)
    requires AllValid(p, u) && StrictPartialOrderOn(p, u)
    requires forall x | x in s :: x in u
    ensures AllValid(p, s) && StrictPartialOrderOn(p, s)
  {
  }

  /** The tuples of `s` that dominate `x`. */
  ghost function Above(p: Pref, s: seq<int>, x: int): set<int>
    requires AllValid(p, s) && Valid(p, x)
  {
    set y | y in s && Cmp(p, y, x)
  }

  lemma ProperSubsetSmaller(a: set<int>, b: set<int>)
    requires a < b
    ensures |a| < |b|
  {
    var d := b - a;
    assert b == a + d && a * d == {};
  }

  /** A dominator of `x` has strictly fewer dominators than `x`. */
  lemma FewerAbove(p: Pref, u: seq<int>, s: seq<int>, x: int, y: int)
    requires AllValid(p, u) && StrictPartialOrderOn(p, u)
    requires forall z | z in s :: z in u
    requires x in u && y in s && Cmp(p, y, x)
    ensures |Above(p, s, y)| < |Above(p, s, x)|
  {
    forall z | z in Above(p, s, y)
      ensures z in Above(p, s, x)
    {
      assert z in u && Cmp(p, z, y);
    }
    assert y in Above(p, s, x) && y !in Above(p, s, y);
    ProperSubsetSmaller(Above(p, s, y), Above(p, s, x));
  }

  /**
   * Every dominated tuple is dominated by an undominated one: follow
   * dominators upwards; each step has strictly fewer dominators.
   */
  lemma {:induction false} MaxDominator(p: Pref, u: seq<int>, s: seq<int>, x: int)
    requires AllValid(p, u) && StrictPartialOrderOn(p, u)
    requires forall y | y in s :: y in u
    requires x in u
    requires Dominated(p, s, x)
    ensures exists z | z in Undominated(p, s, s) :: Cmp(p, z, x)
    decreases |Above(p, s, x)|
  {
    var y :| y in s && Cmp(p, y, x);
    UndominatedMember(p, s, s, y);
    if Dominated(p, s, y) {
      FewerAbove(p, u, s, x, y);
      MaxDominator(p, u, s, y);
      var z :| z in Undominated(p, s, s) && Cmp(p, z, y);
      UndominatedMember(p, s, s, z);
      assert z in u && y in u;
    }
  }

  lemma AllValidAppend(p: Pref, a: seq<int>, b: seq<int>)
    requires AllValid(p, a) && AllValid(p, b)
    ensures AllValid(p, a + b)
  {
  }

  lemma AllValidTail(p: Pref, a: seq<int>)
    requires AllValid(p, a) && a != []
    ensures Valid(p, a[0]) && AllValid(p, a[1..])
  {
    assert a[0] in a;
  }

  lemma AllValidErase(p: Pref, a: seq<int>, j: int)
    requires AllValid(p, a) && 0 <= j < |a|
    ensures AllValid(p, a[..j] + a[j + 1..])
  {
    forall x | x in a[..j] + a[j + 1..]
      ensures x in a
    {
      if x in a[..j] {
        var k :| 0 <= k < j && a[..j][k] == x;
        assert a[k] == x;
      } else {
        var k :| 0 <= k < |a| - j - 1 && a[j + 1..][k] == x;
        assert a[j + 1 + k] == x;
      }
    }
  }

  lemma {:induction false} SurvivorsAppend(p: Pref, a: seq<int>, b: seq<int>, c: int)
    requires AllValid(p, a) && AllValid(p, b) && Valid(p, c)
    ensures AllValid(p, a + b)
    ensures Survivors(p, a + b, c) == Survivors(p, a, c) + Survivors(p, b, c)
    decreases |a|
  {
    AllValidAppend(p, a, b);
    if a == [] {
      assert a + b == b;
    } else {
      var ab, rest := a + b, a[1..];
      assert ab[0] == a[0] && ab[1..] == rest + b;
      AllValidTail(p, a);
      SurvivorsAppend(p, rest, b, c);
      var head := if Cmp(p, c, a[0]) then [] else [a[0]];
      assert Survivors(p, ab, c) == head + Survivors(p, rest + b, c);
      assert Survivors(p, a, c) == head + Survivors(p, rest, c);
    }
  }

  /** A candidate no member beats leaves exactly the members it does not beat. */
  lemma {:induction false} ScanUndominated(p: Pref, w: seq<int>, c: int)
    requires AllValid(p, w) && Valid(p, c)
    requires forall x | x in w :: !Cmp(p, x, c)
    ensures !Scan(p, w, c).dominated && Scan(p, w, c).window == Survivors(p, w, c)
    decreases |w|
  {
    if w != [] {
      ScanUndominated(p, w[1..], c);
    }
  }

  /** A candidate some member beats, and that beats no member, leaves the window as it was. */
  lemma {:induction false} ScanDominated(p: Pref, w: seq<int>, c: int)
    requires AllValid(p, w) && Valid(p, c)
    requires exists z | z in w :: Cmp(p, z, c)
    requires forall x | x in w :: !Cmp(p, c, x)
    ensures Scan(p, w, c) == ScanResult(w, [], true)
    decreases |w|
  {
    if !Cmp(p, w[0], c) {
      var z :| z in w && Cmp(p, z, c);
      assert z in w[1..];
      ScanDominated(p, w[1..], c);
    }
  }

  /** Adding a tuple `c` to the universe removes from the undominated ones exactly those `c` beats. */
  lemma {:induction false} UndominatedExtend(p: Pref, s: seq<int>, u: seq<int>, c: int)
    requires AllValid(p, s) && AllValid(p, u) && Valid(p, c)
    ensures Undominated(p, s, u + [c]) == Survivors(p, Undominated(p, s, u), c)
    decreases |s|
  {
    if s != [] {
      var front, x := s[..|s| - 1], s[|s| - 1];
      UndominatedExtend(p, front, u, c);
      var tail := if Dominated(p, u, x) then [] else [x];
      SurvivorsAppend(p, Undominated(p, front, u), tail, c);
      assert Dominated(p, u + [c], x) <==> Dominated(p, u, x) || Cmp(p, c, x) by {
        if Dominated(p, u + [c], x) && !Cmp(p, c, x) {
          var y :| y in u + [c] && Cmp(p, y, x);
          assert y in u;
        }
        if Cmp(p, c, x) {
          assert c in u + [c];
        }
        if Dominated(p, u, x) {
          var y :| y in u && Cmp(p, y, x);
          assert y in u + [c];
        }
      }
    }
  }

  /** If the universes agree on which tuples of `s` are dominated, so do the undominated parts. */
  lemma {:induction false} UndominatedCongruent(p: Pref, s: seq<int>, u1: seq<int>, u2: seq<int>)
    requires AllValid(p, s) && AllValid(p, u1) && AllValid(p, u2)
    requires forall x | x in s :: Dominated(p, u1, x) == Dominated(p, u2, x)
    ensures Undominated(p, s, u1) == Undominated(p, s, u2)
    decreases |s|
  {
    if s != [] {
      var front := s[..|s| - 1];
      assert forall x | x in front :: x in s;
      UndominatedCongruent(p, front, u1, u2);
    }
  }

  /** The step of `PassIsSkyline` for a candidate some earlier tuple dominates. */
  lemma SkylineStepDominated(p: Pref, v: seq<int>, front: seq<int>, c: int)
    requires AllValid(p, v) && StrictPartialOrderOn(p, v)
    requires |front| > 0 && v == front + [c]
    requires AllValid(p, front) && Pass(p, front).window == Undominated(p, front, front)
    requires Dominated(p, front, c)
    ensures Scan(p, Pass(p, front).window, c) == ScanResult(Pass(p, front).window, [], true)
    ensures Undominated(p, v, v) == Undominated(p, front, front)
  {
    var w := Pass(p, front).window;
    MaxDominator(p, v, front, c);
    var z :| z in w && Cmp(p, z, c);
    UndominatedMember(p, front, front, z);
    forall x | x in w
      ensures !Cmp(p, c, x)
    {
      UndominatedMember(p, front, front, x);
      assert x in v && z in v && c in v;
    }
    ScanDominated(p, w, c);
    assert Dominated(p, v, c) by {
      assert z in v;
    }
    forall x | x in front
      ensures Dominated(p, v, x) == Dominated(p, front, x)
    {
      if Dominated(p, v, x) {
        var y :| y in v && Cmp(p, y, x);
        if y == c {
          assert x in v && z in v;
          assert Cmp(p, z, x);
        }
      }
      if Dominated(p, front, x) {
        var y :| y in front && Cmp(p, y, x);
        assert y in v;
      }
    }
    UndominatedCongruent(p, front, v, front);
    assert v[..|v| - 1] == front;
  }

  /** The step of `PassIsSkyline` for a candidate no earlier tuple dominates. */
  lemma SkylineStepUndominated(p: Pref, v: seq<int>, front: seq<int>, c: int)
    requires AllValid(p, v) && StrictPartialOrderOn(p, v)
    requires |front| > 0 && v == front + [c]
    requires AllValid(p, front) && Pass(p, front).window == Undominated(p, front, front)
    requires !Dominated(p, front, c)
    ensures Scan(p, Pass(p, front).window, c).window + [c] == Undominated(p, v, v)
    ensures !Scan(p, Pass(p, front).window, c).dominated
  {
    var w := Pass(p, front).window;
    forall x | x in w
      ensures !Cmp(p, x, c)
    {
      assert x in front;
    }
    ScanUndominated(p, w, c);
    assert !Dominated(p, v, c) by {
      forall y | y in v
        ensures !Cmp(p, y, c)
      {
        assert y in front || y == c;
      }
    }
    UndominatedExtend(p, front, front, c);
    assert v[..|v| - 1] == front;
  }

  /** Under a strict partial order, the window after one pass is exactly the skyline, in input order. */
  lemma {:induction false} PassIsSkyline(p: Pref, v: seq<int>)
    requires |v| > 0 && AllValid(p, v) && StrictPartialOrderOn(p, v)
    ensures Pass(p, v).window == Skyline(p, v)
    decreases |v|
  {
    if |v| == 1 {
      assert !Dominated(p, v, v[0]);
      assert v[..0] == [];
    } else {
      var front, c := v[..|v| - 1], v[|v| - 1];
      assert v == front + [c];
      SpoSub(p, v, front);
      PassIsSkyline(p, front);
      if Dominated(p, front, c) {
        SkylineStepDominated(p, v, front, c);
      } else {
        SkylineStepUndominated(p, v, front, c);
      }
    }
  }

  /** Under a strict partial order, every tuple outside the window is beaten by a window member. */
  lemma SkylineSound(p: Pref, v: seq<int>)
    requires |v| > 0 && AllValid(p, v) && StrictPartialOrderOn(p, v)
    ensures forall x | x in v && x !in Pass(p, v).window :: exists z | z in Pass(p, v).window :: Cmp(p, z, x)
  {
    PassIsSkyline(p, v);
    forall x | x in v && x !in Pass(p, v).window
      ensures exists z | z in Pass(p, v).window :: Cmp(p, z, x)
    {
      UndominatedMember(p, v, v, x);
      MaxDominator(p, v, v, x);
    }
  }

  // ---------------------------------------------------------------------------
  // Top-k

  /** The top-k result starts with the first window, cut to k. */
  lemma TopKFirstLayer(p: Pref, v: seq<int>, k: nat)
    requires |v| > 0 && AllValid(p, v) && k < |v|
    ensures var w := Pass(p, v).window;
      TopK(p, v, k)[..Min(k, |w|)] == w[..Min(k, |w|)]
  {
  }

  /** Under a strict partial order, the first layer of the top-k result is the skyline, cut to k. */
  lemma TopKFirstLayerIsSkyline(p: Pref, v: seq<int>, k: nat)
    requires |v| > 0 && AllValid(p, v) && StrictPartialOrderOn(p, v) && k < |v|
    ensures var sky := Skyline(p, v);
      TopK(p, v, k)[..Min(k, |sky|)] == sky[..Min(k, |sky|)]
  {
    PassIsSkyline(p, v);
    TopKFirstLayer(p, v, k);
  }
}
