/**
 * The preference algebra: a tree of dominance predicates over tuple indices.
 *
 * Every node answers `Cmp(i, j)` ("tuple i is better than tuple j") and
 * `Eq(i, j)` ("i and j are equally good") by one boolean expression over its
 * children.  Score leaves read one numeric column, lower values being better.
 * The tree is rebuilt from a serialised description by `CreatePreference`,
 * which also hands out the score columns by a running column id.
 */
module Prefs {
  import opened Wrappers
  import opened Seqs

  /** The four binary combinators, all sharing one `Eq`. */
  datatype Op = Pareto | Prior | Intersection | Union
  {
    /** Pareto and intersection share a common product superclass. */
    predicate IsProduct()
    {
      Pareto? || Intersection?
    }
  }

  /**
   * A preference node.  Every node carries the column bookkeeping `highestId`;
   * a score leaf holds exactly one column, a reverse node one child and a
   * binary ("complex") node exactly two children.
   */
  datatype Pref =
    | Score(highestId: int, data: seq<real>)
    | Reverse(highestId: int, p: Pref)
    | Complex(highestId: int, op: Op, p1: Pref, p2: Pref)

  /** Index `i` can be looked up in every column the tree reads. */
  predicate Valid(p: Pref, i: int)
  {
    match p
    case Score(_, data) => 0 <= i < |data|
    case Reverse(_, q) => Valid(q, i)
    case Complex(_, _, p1, p2) => Valid(p1, i) && Valid(p2, i)
  }

  predicate AllValid(p: Pref, s: seq<int>)
  {
    forall x | x in s :: Valid(p, x)
  }

  /** Equivalence of two tuples under the preference; every tuple is equivalent to itself. */
  function Eq(p: Pref, i: int, j: int): (r: bool)
    requires Valid(p, i) && Valid(p, j)
    ensures i == j ==> r
  {
    match p
    case Score(_, data) => data[i] == data[j]
    case Reverse(_, q) => Eq(q, i, j)
    case Complex(_, _, p1, p2) => Eq(p1, i, j) && Eq(p2, i, j)
  }

  /** `Eq` does not depend on the order of its two tuples. */
  lemma {:induction false} EqSymmetric(p: Pref, i: int, j: int)
    requires Valid(p, i) && Valid(p, j)
    ensures Eq(p, i, j) == Eq(p, j, i)
  {
    match p
    case Score(_, _) =>
    case Reverse(_, q) =>
      EqSymmetric(q, i, j);
    case Complex(_, _, p1, p2) =>
      EqSymmetric(p1, i, j);
      EqSymmetric(p2, i, j);
  }

  /**
   * Dominance: tuple `i` is strictly better than tuple `j`.  In every tree,
   * unions included, a dominating tuple is never also equivalent, so no tuple
   * dominates itself.
   */
  function Cmp(p: Pref, i: int, j: int): (r: bool)
    requires Valid(p, i) && Valid(p, j)
    ensures r ==> !Eq(p, i, j)
  {
    match p
    case Score(_, data) => data[i] < data[j]
    case Reverse(_, q) =>
      EqSymmetric(q, i, j);
      Cmp(q, j, i)
    case Complex(_, op, p1, p2) =>
      match op
      case Prior => Cmp(p1, i, j) || (Eq(p1, i, j) && Cmp(p2, i, j))
      case Pareto =>
        (Cmp(p1, i, j) && (Cmp(p2, i, j) || Eq(p2, i, j))) ||
        (Cmp(p2, i, j) && (Cmp(p1, i, j) || Eq(p1, i, j)))
      case Intersection => Cmp(p1, i, j) && Cmp(p2, i, j)
      case Union => Cmp(p1, i, j) || Cmp(p2, i, j)
  }

  // ---------------------------------------------------------------------------
  // Laws of the algebra

  /** A score leaf orders tuples totally: exactly one of better, worse, equal. */
  lemma ScoreTrichotomy(h: int, data: seq<real>, i: int, j: int)
    requires 0 <= i < |data| && 0 <= j < |data|
    ensures var p := Score(h, data);
      (Cmp(p, i, j) && !Cmp(p, j, i) && !Eq(p, i, j)) ||
      (!Cmp(p, i, j) && Cmp(p, j, i) && !Eq(p, i, j)) ||
      (!Cmp(p, i, j) && !Cmp(p, j, i) && Eq(p, i, j))
  {
  }

  /** Reversing twice gives back the inner preference. */
  lemma DoubleReverse(h1: int, h2: int, q: Pref, i: int, j: int)
    requires Valid(q, i) && Valid(q, j)
    ensures Cmp(Reverse(h1, Reverse(h2, q)), i, j) == Cmp(q, i, j)
    ensures Eq(Reverse(h1, Reverse(h2, q)), i, j) == Eq(q, i, j)
  {
  }

  /** For the same children: intersection ⊆ Pareto ⊆ prioritised ⊆ union. */
  lemma InclusionChain(h: int, p1: Pref, p2: Pref, i: int, j: int)
    requires Valid(p1, i) && Valid(p1, j) && Valid(p2, i) && Valid(p2, j)
    ensures Cmp(Complex(h, Intersection, p1, p2), i, j) ==> Cmp(Complex(h, Pareto, p1, p2), i, j)
    ensures Cmp(Complex(h, Pareto, p1, p2), i, j) ==> Cmp(Complex(h, Prior, p1, p2), i, j)
    ensures Cmp(Complex(h, Prior, p1, p2), i, j) ==> Cmp(Complex(h, Union, p1, p2), i, j)
  {
  }

  /** The product combinators (Pareto, intersection) treat their two children alike. */
  lemma ProductSymmetric(h: int, op: Op, p1: Pref, p2: Pref, i: int, j: int)
    requires op.IsProduct()
    requires Valid(p1, i) && Valid(p1, j) && Valid(p2, i) && Valid(p2, j)
    ensures Cmp(Complex(h, op, p1, p2), i, j) == Cmp(Complex(h, op, p2, p1), i, j)
  {
  }

  /** Prioritisation is not a product: swapping its children changes the order. */
  lemma PriorNotSymmetric()
    ensures !Prior.IsProduct()
    ensures var a, b := Score(0, [0.0, 1.0]), Score(1, [1.0, 0.0]);
      && Valid(a, 0) && Valid(a, 1) && Valid(b, 0) && Valid(b, 1)
      && Cmp(Complex(1, Prior, a, b), 0, 1) && !Cmp(Complex(1, Prior, b, a), 0, 1)
  {
  }

  /** A union of two opposite score columns dominates in both directions. */
  lemma UnionCanCycle()
    ensures var p := Complex(1, Union, Score(0, [0.0, 1.0]), Score(1, [1.0, 0.0]));
      Valid(p, 0) && Valid(p, 1) && Cmp(p, 0, 1) && Cmp(p, 1, 0)
  {
  }

  predicate UnionFree(p: Pref)
  {
    match p
    case Score(_, _) => true
    case Reverse(_, q) => UnionFree(q)
    case Complex(_, op, p1, p2) => op != Union && UnionFree(p1) && UnionFree(p2)
  }

  /**
   * Without union nodes, `Cmp` is a strict partial order, `Eq` an equivalence,
   * and `Cmp` is compatible with `Eq` on both sides (shown here for one triple).
   */
  lemma {:induction false} OrderLaws(p: Pref, x: int, y: int, z: int)
    requires UnionFree(p)
    requires Valid(p, x) && Valid(p, y) && Valid(p, z)
    ensures !Cmp(p, x, x) && Eq(p, x, x)
    ensures Eq(p, x, y) ==> Eq(p, y, x)
    ensures Eq(p, x, y) && Eq(p, y, z) ==> Eq(p, x, z)
    ensures Cmp(p, x, y) && Cmp(p, y, z) ==> Cmp(p, x, z)
    ensures Cmp(p, x, y) && Eq(p, y, z) ==> Cmp(p, x, z)
    ensures Eq(p, x, y) && Cmp(p, y, z) ==> Cmp(p, x, z)
  {
    match p
    case Score(_, _) =>
    case Reverse(_, q) =>
      OrderLaws(q, x, y, z);
      OrderLaws(q, z, y, x);
      OrderLaws(q, y, z, x);
    case Complex(_, op, p1, p2) =>
      OrderLaws(p1, x, y, z);
      OrderLaws(p2, x, y, z);
  }

  /** Without union nodes, at most one of "better", "worse" and "equal" holds. */
  lemma Exclusive(p: Pref, i: int, j: int)
    requires UnionFree(p) && Valid(p, i) && Valid(p, j)
    ensures !(Cmp(p, i, j) && Cmp(p, j, i))
    ensures !(Cmp(p, i, j) && Eq(p, i, j))
  {
    OrderLaws(p, i, j, i);
    OrderLaws(p, j, i, j);
  }

  /** `Cmp` is a strict partial order on the tuples of `s`. */
  ghost predicate StrictPartialOrderOn(p: Pref, s: seq<int>)
    requires AllValid(p, s)
  {
    && (forall x | x in s :: !Cmp(p, x, x))
    && (forall x, y, z | x in s && y in s && z in s :: Cmp(p, x, y) && Cmp(p, y, z) ==> Cmp(p, x, z))
  }

  lemma UnionFreeIsStrictPartialOrder(p: Pref, s: seq<int>)
    requires UnionFree(p) && AllValid(p, s)
    ensures StrictPartialOrderOn(p, s)
  {
    forall x, y, z | x in s && y in s && z in s
      ensures !Cmp(p, x, x)
      ensures Cmp(p, x, y) && Cmp(p, y, z) ==> Cmp(p, x, z)
    {
      OrderLaws(p, x, y, z);
    }
  }

  // ---------------------------------------------------------------------------
  // De-serialisation

  /**
   * The serialised description handed over from R: a list with a one-character
   * `kind` and, depending on the kind, the children `p` or `p1` and `p2`.
   */
  datatype Serial = Serial(kind: char, p: Option<Serial>, p1: Option<Serial>, p2: Option<Serial>)

  datatype DeserializeError =
    | UnexpectedPreference(kind: char)   // the R error raised for an unknown tag
    | MissingChild(name: string)         // a child list element that is absent
    | MissingColumn(id: int)             // a column id outside the score table

  function OpTag(op: Op): char
  {
    match op
    case Pareto => '*'
    case Prior => '&'
    case Intersection => '|'
    case Union => '+'
  }

  /** The tags of the binary combinators: `*`, `&`, `|` and `+`. */
  predicate IsOpTag(c: char)
  {
    c == '*' || c == '&' || c == '|' || c == '+'
  }

  /** The tags the de-serialiser accepts: a binary tag, `-` or `s`. */
  predicate IsKnownTag(c: char)
  {
    IsOpTag(c) || c == '-' || c == 's'
  }

  function TagOp(c: char): (r: Option<Op>)
    ensures r.Some? <==> IsOpTag(c)
    ensures r.Some? ==> OpTag(r.value) == c
  {
    if c == '*' then Some(Pareto)
    else if c == '&' then Some(Prior)
    else if c == '|' then Some(Intersection)
    else if c == '+' then Some(Union)
    else None
  }

  /** The tag of the node kind, as used in the serialised description. */
  function Kind(t: Pref): char
  {
    match t
    case Score(_, _) => 's'
    case Reverse(_, _) => '-'
    case Complex(_, op, _, _) => OpTag(op)
  }

  /** Every score leaf reads the column its id names. */
  predicate LeavesFrom(t: Pref, scores: seq<seq<real>>)
  {
    match t
    case Score(h, data) => 0 <= h < |scores| && data == scores[h]
    case Reverse(_, q) => LeavesFrom(q, scores)
    case Complex(_, _, p1, p2) => LeavesFrom(p1, scores) && LeavesFrom(p2, scores)
  }

  /** The column ids of the score leaves, from left to right. */
  function Leaves(t: Pref): seq<int>
  {
    match t
    case Score(h, _) => [h]
    case Reverse(_, q) => Leaves(q)
    case Complex(_, _, p1, p2) => Leaves(p1) + Leaves(p2)
  }

  predicate NoReverse(t: Pref)
  {
    match t
    case Score(_, _) => true
    case Reverse(_, _) => false
    case Complex(_, _, p1, p2) => NoReverse(p1) && NoReverse(p2)
  }

  /**
   * A description every node of which carries a known tag and the children its
   * kind reads: `p1` and `p2` for a binary tag, `p` for `-`, none for `s`.
   */
  predicate WellFormed(s: Serial)
    decreases s
  {
    if IsOpTag(s.kind) then
      s.p1.Some? && s.p2.Some? && WellFormed(s.p1.value) && WellFormed(s.p2.value)
    else if s.kind == '-' then
      s.p.Some? && WellFormed(s.p.value)
    else
      s.kind == 's'
  }

  /** The number of score leaves of a well-formed description. */
  function LeafCount(s: Serial): (n: nat)
    requires WellFormed(s)
    ensures n >= 1
    decreases s
  {
    if IsOpTag(s.kind) then LeafCount(s.p1.value) + LeafCount(s.p2.value)
    else if s.kind == '-' then LeafCount(s.p.value)
    else 1
  }

  /** The tags of the nodes the de-serialiser visits: each node and the children its tag reads. */
  function Tags(s: Serial): set<char>
    decreases s
  {
    if IsOpTag(s.kind) then
      {s.kind}
      + (if s.p1.Some? then Tags(s.p1.value) else {})
      + (if s.p2.Some? then Tags(s.p2.value) else {})
    else if s.kind == '-' then
      {s.kind} + (if s.p.Some? then Tags(s.p.value) else {})
    else
      {s.kind}
  }

  /** A well-formed description carries only known tags. */
  lemma {:induction false} WellFormedTags(s: Serial)
    requires WellFormed(s)
    ensures forall k | k in Tags(s) :: IsKnownTag(k)
    decreases s
  {
    if IsOpTag(s.kind) {
      WellFormedTags(s.p1.value);
      WellFormedTags(s.p2.value);
    } else if s.kind == '-' {
      WellFormedTags(s.p.value);
    }
  }

  /**
   * De-serialisation as written: a binary node numbers its second child from
   * `p1.highestId + 1` and takes `p2.highestId`; a score leaf takes the
   * current column; a reverse node keeps the `highestId` of 0 its allocation
   * gave it.
   */
  function CreatePreference(s: Serial, scores: seq<seq<real>>, currentId: int): (r: Result<Pref, DeserializeError>)
    ensures r.Ok? ==> Kind(r.value) == s.kind
    ensures !IsKnownTag(s.kind) ==> r == Err(UnexpectedPreference(s.kind))
    ensures r.Ok? ==> LeavesFrom(r.value, scores)
    ensures r.Ok? && r.value.Reverse? ==> r.value.highestId == 0
    decreases s
  {
    var op := TagOp(s.kind);
    if op.Some? then
      if s.p1.None? then Err(MissingChild("p1"))
      else
        var t1 := CreatePreference(s.p1.value, scores, currentId);
        if t1.Err? then Err(t1.error)
        else if s.p2.None? then Err(MissingChild("p2"))
        else
          var t2 := CreatePreference(s.p2.value, scores, t1.value.highestId + 1);
          if t2.Err? then Err(t2.error)
          else Ok(Complex(t2.value.highestId, op.value, t1.value, t2.value))
    else if s.kind == '-' then
      if s.p.None? then Err(MissingChild("p"))
      else
        var t := CreatePreference(s.p.value, scores, currentId);
        if t.Err? then Err(t.error)
        else Ok(Reverse(0, t.value))
    else if s.kind == 's' then
      if 0 <= currentId < |scores| then Ok(Score(currentId, scores[currentId]))
      else Err(MissingColumn(currentId))
    else Err(UnexpectedPreference(s.kind))
  }

  /** Without reverse nodes, the leaves take consecutive columns from `currentId`. */
  lemma {:induction false} LeafNumbering(s: Serial, scores: seq<seq<real>>, currentId: int)
    requires CreatePreference(s, scores, currentId).Ok?
    requires NoReverse(CreatePreference(s, scores, currentId).value)
    ensures var t := CreatePreference(s, scores, currentId).value;
      |Leaves(t)| >= 1 &&
      Leaves(t) == Range(currentId, |Leaves(t)|) &&
      t.highestId == currentId + |Leaves(t)| - 1
    decreases s
  {
    var op := TagOp(s.kind);
    if op.Some? {
      var t1 := CreatePreference(s.p1.value, scores, currentId).value;
      var t2 := CreatePreference(s.p2.value, scores, t1.highestId + 1).value;
      assert CreatePreference(s, scores, currentId).value == Complex(t2.highestId, op.value, t1, t2);
      LeafNumbering(s.p1.value, scores, currentId);
      LeafNumbering(s.p2.value, scores, t1.highestId + 1);
      RangeConcat(currentId, |Leaves(t1)|, |Leaves(t2)|);
    }
  }

  /**
   * The `highestId` the as-written code gives the tree built from `s`: the
   * last leaf's column, except that a reverse node reports 0.
   */
  function AsWrittenHigh(s: Serial, currentId: int): int
    requires WellFormed(s)
    decreases s
  {
    if IsOpTag(s.kind) then AsWrittenHigh(s.p2.value, AsWrittenHigh(s.p1.value, currentId) + 1)
    else if s.kind == '-' then 0
    else currentId
  }

  /** The columns the leaves read under the as-written numbering, from left to right. */
  function AsWrittenColumns(s: Serial, currentId: int): (cs: seq<int>)
    requires WellFormed(s)
    ensures |cs| == LeafCount(s)
    decreases s
  {
    if IsOpTag(s.kind) then
      AsWrittenColumns(s.p1.value, currentId)
      + AsWrittenColumns(s.p2.value, AsWrittenHigh(s.p1.value, currentId) + 1)
    else if s.kind == '-' then AsWrittenColumns(s.p.value, currentId)
    else [currentId]
  }

  /**
   * As written, a successful build comes from a well-formed description, and
   * its leaves read the columns `AsWrittenColumns` numbers, which depend only
   * on the shape of the description, never on the table.
   */
  lemma {:induction false} AsWrittenNumbering(s: Serial, scores: seq<seq<real>>, currentId: int)
    ensures var r := CreatePreference(s, scores, currentId);
      r.Ok? ==> && WellFormed(s)
                && Leaves(r.value) == AsWrittenColumns(s, currentId)
                && r.value.highestId == AsWrittenHigh(s, currentId)
    decreases s
  {
    var r := CreatePreference(s, scores, currentId);
    if r.Ok? {
      if IsOpTag(s.kind) {
        var t1 := CreatePreference(s.p1.value, scores, currentId).value;
        var t2 := CreatePreference(s.p2.value, scores, t1.highestId + 1).value;
        assert r.value == Complex(t2.highestId, TagOp(s.kind).value, t1, t2);
        AsWrittenNumbering(s.p1.value, scores, currentId);
        AsWrittenNumbering(s.p2.value, scores, t1.highestId + 1);
      } else if s.kind == '-' {
        var t := CreatePreference(s.p.value, scores, currentId).value;
        assert r.value == Reverse(0, t);
        AsWrittenNumbering(s.p.value, scores, currentId);
      }
    }
  }

  /**
   * The as-written de-serialiser succeeds exactly on a well-formed description
   * whose leaves, numbered by `AsWrittenColumns`, all name a column of the table.
   */
  lemma {:induction false} AsWrittenBuilds(s: Serial, scores: seq<seq<real>>, currentId: int)
    ensures CreatePreference(s, scores, currentId).Ok? <==>
      WellFormed(s) && forall c | c in AsWrittenColumns(s, currentId) :: 0 <= c < |scores|
    decreases s
  {
    var r := CreatePreference(s, scores, currentId);
    if IsOpTag(s.kind) {
      if s.p1.Some? {
        AsWrittenBuilds(s.p1.value, scores, currentId);
        var t1 := CreatePreference(s.p1.value, scores, currentId);
        if WellFormed(s) {
          var next := AsWrittenHigh(s.p1.value, currentId) + 1;
          assert AsWrittenColumns(s, currentId)
              == AsWrittenColumns(s.p1.value, currentId) + AsWrittenColumns(s.p2.value, next);
        }
        if t1.Err? {
          assert r == Err(t1.error);
          if WellFormed(s) {
            var bad :| bad in AsWrittenColumns(s.p1.value, currentId) && !(0 <= bad < |scores|);
            assert bad in AsWrittenColumns(s, currentId);
          }
        } else if s.p2.Some? {
          AsWrittenNumbering(s.p1.value, scores, currentId);
          var next := t1.value.highestId + 1;
          AsWrittenBuilds(s.p2.value, scores, next);
          var t2 := CreatePreference(s.p2.value, scores, next);
          if t2.Ok? {
            assert r.Ok?;
          } else {
            assert r == Err(t2.error);
            if WellFormed(s) {
              var bad :| bad in AsWrittenColumns(s.p2.value, next) && !(0 <= bad < |scores|);
              assert bad in AsWrittenColumns(s, currentId);
            }
          }
        }
      }
    } else if s.kind == '-' {
      if s.p.Some? {
        AsWrittenBuilds(s.p.value, scores, currentId);
        if WellFormed(s) {
          assert AsWrittenColumns(s, currentId) == AsWrittenColumns(s.p.value, currentId);
        }
      }
    } else if s.kind == 's' {
      assert currentId in AsWrittenColumns(s, currentId);
    }
  }

  /** The serialised description `*( -( *(s, s) ), s )`. */
  function ClashExample(): Serial
  {
    var leaf := Serial('s', None, None, None);
    var inner := Serial('*', None, Some(leaf), Some(leaf));
    Serial('*', None, Some(Serial('-', Some(inner), None, None)), Some(leaf))
  }

  /**
   * As written, a reverse node in first position resets the numbering: with
   * three columns, the three leaves of `ClashExample` read columns 0, 1, 1.
   */
  lemma ReverseColumnClash(scores: seq<seq<real>>)
    requires |scores| == 3
    ensures CreatePreference(ClashExample(), scores, 0).Ok?
    ensures Leaves(CreatePreference(ClashExample(), scores, 0).value) == [0, 1, 1]
  {
    var leaf := Serial('s', None, None, None);
    var inner := Serial('*', None, Some(leaf), Some(leaf));
    var rev := Serial('-', Some(inner), None, None);
    assert CreatePreference(leaf, scores, 0) == Ok(Score(0, scores[0]));
    assert CreatePreference(leaf, scores, 1) == Ok(Score(1, scores[1]));
    var tInner := Complex(1, Pareto, Score(0, scores[0]), Score(1, scores[1]));
    assert CreatePreference(inner, scores, 0) == Ok(tInner);
    assert CreatePreference(rev, scores, 0) == Ok(Reverse(0, tInner));
    assert CreatePreference(ClashExample(), scores, 0)
        == Ok(Complex(1, Pareto, Reverse(0, tInner), Score(1, scores[1])));
    assert Leaves(tInner) == [0, 1];
  }

  /** De-serialisation with the reverse node taking its child's `highestId`. */
  function CreatePreferenceFixed(s: Serial, scores: seq<seq<real>>, currentId: int): (r: Result<Pref, DeserializeError>)
    ensures r.Ok? ==> Kind(r.value) == s.kind
    ensures !IsKnownTag(s.kind) ==> r == Err(UnexpectedPreference(s.kind))
    ensures r.Ok? ==> LeavesFrom(r.value, scores)
    decreases s
  {
    var op := TagOp(s.kind);
    if op.Some? then
      if s.p1.None? then Err(MissingChild("p1"))
      else
        var t1 := CreatePreferenceFixed(s.p1.value, scores, currentId);
        if t1.Err? then Err(t1.error)
        else if s.p2.None? then Err(MissingChild("p2"))
        else
          var t2 := CreatePreferenceFixed(s.p2.value, scores, t1.value.highestId + 1);
          if t2.Err? then Err(t2.error)
          else Ok(Complex(t2.value.highestId, op.value, t1.value, t2.value))
    else if s.kind == '-' then
      if s.p.None? then Err(MissingChild("p"))
      else
        var t := CreatePreferenceFixed(s.p.value, scores, currentId);
        if t.Err? then Err(t.error)
        else Ok(Reverse(t.value.highestId, t.value))
    else if s.kind == 's' then
      if 0 <= currentId < |scores| then Ok(Score(currentId, scores[currentId]))
      else Err(MissingColumn(currentId))
    else Err(UnexpectedPreference(s.kind))
  }

  /** In every tree, the leaves take consecutive columns from `currentId`, left to right. */
  lemma {:induction false} LeafNumberingFixed(s: Serial, scores: seq<seq<real>>, currentId: int)
    requires CreatePreferenceFixed(s, scores, currentId).Ok?
    ensures var t := CreatePreferenceFixed(s, scores, currentId).value;
      |Leaves(t)| >= 1 &&
      Leaves(t) == Range(currentId, |Leaves(t)|) &&
      t.highestId == currentId + |Leaves(t)| - 1
    decreases s
  {
    var op := TagOp(s.kind);
    if op.Some? {
      var t1 := CreatePreferenceFixed(s.p1.value, scores, currentId).value;
      var t2 := CreatePreferenceFixed(s.p2.value, scores, t1.highestId + 1).value;
      assert CreatePreferenceFixed(s, scores, currentId).value == Complex(t2.highestId, op.value, t1, t2);
      LeafNumberingFixed(s.p1.value, scores, currentId);
      LeafNumberingFixed(s.p2.value, scores, t1.highestId + 1);
      RangeConcat(currentId, |Leaves(t1)|, |Leaves(t2)|);
    } else if s.kind == '-' {
      LeafNumberingFixed(s.p.value, scores, currentId);
    }
  }

  /**
   * The corrected de-serialiser succeeds exactly on a well-formed description
   * whose leaves, numbered from a non-negative `currentId`, fit in the table;
   * the root then reports the last of those columns.
   */
  lemma {:induction false} FixedBuilds(s: Serial, scores: seq<seq<real>>, currentId: int)
    ensures var r := CreatePreferenceFixed(s, scores, currentId);
      && (r.Ok? <==> WellFormed(s) && 0 <= currentId && currentId + LeafCount(s) <= |scores|)
      && (r.Ok? ==> r.value.highestId == currentId + LeafCount(s) - 1)
    decreases s
  {
    if IsOpTag(s.kind) {
      if s.p1.Some? {
        FixedBuilds(s.p1.value, scores, currentId);
        var t1 := CreatePreferenceFixed(s.p1.value, scores, currentId);
        if t1.Ok? && s.p2.Some? {
          FixedBuilds(s.p2.value, scores, t1.value.highestId + 1);
        }
      }
    } else if s.kind == '-' {
      if s.p.Some? {
        FixedBuilds(s.p.value, scores, currentId);
      }
    }
  }

  /** As written, an `UnexpectedPreference` error names an unknown tag of a visited node. */
  lemma {:induction false} UnexpectedNamesTag(s: Serial, scores: seq<seq<real>>, currentId: int)
    ensures var r := CreatePreference(s, scores, currentId);
      r.Err? && r.error.UnexpectedPreference? ==> r.error.kind in Tags(s) && !IsKnownTag(r.error.kind)
    decreases s
  {
    if IsOpTag(s.kind) {
      if s.p1.Some? {
        UnexpectedNamesTag(s.p1.value, scores, currentId);
        var t1 := CreatePreference(s.p1.value, scores, currentId);
        assert Tags(s.p1.value) <= Tags(s);
        if t1.Err? {
          assert CreatePreference(s, scores, currentId) == Err(t1.error);
        } else if s.p2.Some? {
          var next := t1.value.highestId + 1;
          UnexpectedNamesTag(s.p2.value, scores, next);
          assert Tags(s.p2.value) <= Tags(s);
          var t2 := CreatePreference(s.p2.value, scores, next);
          if t2.Err? {
            assert CreatePreference(s, scores, currentId) == Err(t2.error);
          }
        }
      }
    } else if s.kind == '-' && s.p.Some? {
      UnexpectedNamesTag(s.p.value, scores, currentId);
      assert Tags(s.p.value) <= Tags(s);
    }
  }

  /** Corrected, an `UnexpectedPreference` error names an unknown tag of a visited node. */
  lemma {:induction false} UnexpectedNamesTagFixed(s: Serial, scores: seq<seq<real>>, currentId: int)
    ensures var r := CreatePreferenceFixed(s, scores, currentId);
      r.Err? && r.error.UnexpectedPreference? ==> r.error.kind in Tags(s) && !IsKnownTag(r.error.kind)
    decreases s
  {
    if IsOpTag(s.kind) {
      if s.p1.Some? {
        UnexpectedNamesTagFixed(s.p1.value, scores, currentId);
        var t1 := CreatePreferenceFixed(s.p1.value, scores, currentId);
        if t1.Ok? && s.p2.Some? {
          UnexpectedNamesTagFixed(s.p2.value, scores, t1.value.highestId + 1);
        }
      }
    } else if s.kind == '-' && s.p.Some? {
      UnexpectedNamesTagFixed(s.p.value, scores, currentId);
    }
  }

  /**
   * In both versions, an `UnexpectedPreference` error names an unknown tag of a
   * node the de-serialiser visits, and an unknown tag on any visited node makes
   * the result an error.  A child slot the node's tag does not read is never
   * visited, so a tag there does not matter.
   */
  lemma UnknownTagFails(s: Serial, scores: seq<seq<real>>, currentId: int)
    ensures var r := CreatePreference(s, scores, currentId);
      r.Err? && r.error.UnexpectedPreference? ==> r.error.kind in Tags(s) && !IsKnownTag(r.error.kind)
    ensures var r := CreatePreferenceFixed(s, scores, currentId);
      r.Err? && r.error.UnexpectedPreference? ==> r.error.kind in Tags(s) && !IsKnownTag(r.error.kind)
    ensures (exists k | k in Tags(s) :: !IsKnownTag(k)) ==>
      CreatePreference(s, scores, currentId).Err? && CreatePreferenceFixed(s, scores, currentId).Err?
  {
    UnexpectedNamesTag(s, scores, currentId);
    UnexpectedNamesTagFixed(s, scores, currentId);
    AsWrittenBuilds(s, scores, currentId);
    FixedBuilds(s, scores, currentId);
    if WellFormed(s) {
      WellFormedTags(s);
    }
  }

  /** Both versions agree on every tree without reverse nodes. */
  lemma {:induction false} FixAgreesWithoutReverse(s: Serial, scores: seq<seq<real>>, currentId: int)
    requires CreatePreference(s, scores, currentId).Ok?
    requires NoReverse(CreatePreference(s, scores, currentId).value)
    ensures CreatePreferenceFixed(s, scores, currentId) == CreatePreference(s, scores, currentId)
    decreases s
  {
    var op := TagOp(s.kind);
    if op.Some? {
      var t1 := CreatePreference(s.p1.value, scores, currentId).value;
      var t2 := CreatePreference(s.p2.value, scores, t1.highestId + 1).value;
      assert CreatePreference(s, scores, currentId).value == Complex(t2.highestId, op.value, t1, t2);
      FixAgreesWithoutReverse(s.p1.value, scores, currentId);
      FixAgreesWithoutReverse(s.p2.value, scores, t1.highestId + 1);
    }
  }

  /** The serialised description of a tree. */
  function Serialize(t: Pref): (s: Serial)
    ensures s.kind == Kind(t)
  {
    match t
    case Score(_, _) => Serial('s', None, None, None)
    case Reverse(_, q) => Serial('-', Some(Serialize(q)), None, None)
    case Complex(_, op, p1, p2) => Serial(OpTag(op), None, Some(Serialize(p1)), Some(Serialize(p2)))
  }

  /** The description written for a tree is well-formed and has one leaf per score leaf. */
  lemma {:induction false} SerializeWellFormed(t: Pref)
    ensures WellFormed(Serialize(t)) && LeafCount(Serialize(t)) == |Leaves(t)|
  {
    match t
    case Score(_, _) =>
    case Reverse(_, q) =>
      SerializeWellFormed(q);
    case Complex(_, op, p1, p2) =>
      SerializeWellFormed(p1);
      SerializeWellFormed(p2);
  }

  /** Serialising a de-serialised tree and reading it back gives the same tree. */
  lemma {:induction false} SerializeRoundTrip(s: Serial, scores: seq<seq<real>>, currentId: int)
    requires CreatePreferenceFixed(s, scores, currentId).Ok?
    ensures var t := CreatePreferenceFixed(s, scores, currentId).value;
      CreatePreferenceFixed(Serialize(t), scores, currentId) == Ok(t)
    decreases s
  {
    var t := CreatePreferenceFixed(s, scores, currentId).value;
    match t
    case Score(_, _) =>
    case Reverse(_, q) =>
      SerializeRoundTrip(s.p.value, scores, currentId);
    case Complex(_, op, t1, t2) =>
      SerializeRoundTrip(s.p1.value, scores, currentId);
      SerializeRoundTrip(s.p2.value, scores, t1.highestId + 1);
  }

  /** In a table whose columns all have `n` entries, the tuples `0..n-1` are valid. */
  lemma {:induction false} BuiltTreeValid(t: Pref, scores: seq<seq<real>>, n: nat, i: int)
    requires LeavesFrom(t, scores)
    requires forall c | c in scores :: |c| == n
    requires 0 <= i < n
    ensures Valid(t, i)
  {
    match t
    case Score(h, data) =>
      assert scores[h] in scores;
    case Reverse(_, q) =>
      BuiltTreeValid(q, scores, n, i);
    case Complex(_, _, p1, p2) =>
      BuiltTreeValid(p1, scores, n, i);
      BuiltTreeValid(p2, scores, n, i);
  }
}
