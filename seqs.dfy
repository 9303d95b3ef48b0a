/** Sequence helpers shared by the engines: index ranges, concatenation of parts, subsequences. */
module Seqs {

  function Min(a: int, b: int): int
  {
    if a <= b then a else b
  }

  /** The index vector `start, start+1, ..., start+len-1`. */
  function Range(start: int, len: nat): (r: seq<int>)
    ensures |r| == len
    ensures forall i :: 0 <= i < len ==> r[i] == start + i
  {
    seq(len, i => start + i)
  }

  /** The index vector `0, 1, ..., n-1` that the drivers hand to the engines. */
  function Iota(n: nat): (r: seq<int>)
    ensures |r| == n
    ensures forall i :: 0 <= i < n ==> r[i] == i
  {
    Range(0, n)
  }

  /** Fills a vector of `n` slots with `0, 1, ..., n-1`, one slot at a time. */
  method IndexVector(n: nat) returns (v: seq<int>)
    ensures v == Iota(n)
  {
    var a := new int[n];
    for i := 0 to n
      invariant a[..i] == Iota(i)
    {
      a[i] := i;
      assert a[..i + 1] == a[..i] + [i];
    }
    v := a[..];
    assert v == a[..n];
  }

  /** Adjacent ranges join into one. */
  lemma RangeConcat(start: int, m: nat, n: nat)
    ensures Range(start, m) + Range(start + m, n) == Range(start, m + n)
  {
    var r := Range(start, m) + Range(start + m, n);
    forall i | 0 <= i < m + n
      ensures r[i] == start + i
    {
      if i >= m {
        assert r[i] == Range(start + m, n)[i - m];
      }
    }
  }

  /** Concatenation of parts in order, as `splice` onto the end of a list does. */
  function Flatten<T>(ss: seq<seq<T>>): seq<T>
  {
    if ss == [] then [] else Flatten(ss[..|ss| - 1]) + ss[|ss| - 1]
  }

  lemma {:induction false} FlattenAppend<T>(a: seq<seq<T>>, b: seq<seq<T>>)
    ensures Flatten(a + b) == Flatten(a) + Flatten(b)
    decreases |b|
  {
    if b == [] {
      assert a + b == a;
    } else {
      var b', x := b[..|b| - 1], b[|b| - 1];
      var ab := a + b;
      assert ab[..|ab| - 1] == a + b' && ab[|ab| - 1] == x;
      FlattenAppend(a, b');
      assert Flatten(ab) == Flatten(a + b') + x;
      assert Flatten(b) == Flatten(b') + x;
    }
  }

  lemma FlattenOne<T>(s: seq<T>)
    ensures Flatten([s]) == s
  {
    assert [s][..0] == [];
  }

  /** Part-wise sub-multisets give a sub-multiset of the concatenation. */
  lemma {:induction false} FlattenWithin<T>(rs: seq<seq<T>>, ps: seq<seq<T>>)
    requires |rs| == |ps|
    requires forall k | 0 <= k < |rs| :: multiset(rs[k]) <= multiset(ps[k])
    ensures multiset(Flatten(rs)) <= multiset(Flatten(ps))
    decreases |rs|
  {
    if rs != [] {
      FlattenWithin(rs[..|rs| - 1], ps[..|ps| - 1]);
    }
  }

  /** A prefix of a part of `v` takes its elements from `v`. */
  lemma PrefixWithin(w: seq<int>, k: nat, v: seq<int>)
    requires k <= |w| && multiset(w) <= multiset(v)
    ensures multiset(w[..k]) <= multiset(v)
  {
    assert w == w[..k] + w[k..];
  }

  /** One part of `v` followed by elements of the other part takes its elements from `v`. */
  lemma AppendWithin(w: seq<int>, t: seq<int>, rest: seq<int>, v: seq<int>)
    requires multiset(w) + multiset(rest) == multiset(v) && multiset(t) <= multiset(rest)
    ensures multiset(w + t) <= multiset(v)
  {
  }

  /** `a` is obtained from `b` by deleting elements, keeping the order of the rest. */
  predicate IsSubseq<T(==)>(a: seq<T>, b: seq<T>)
    decreases |b|
  {
    if a == [] then true
    else if b == [] then false
    else (a[0] == b[0] && IsSubseq(a[1..], b[1..])) || IsSubseq(a, b[1..])
  }

  lemma {:induction false} SubseqRefl<T>(a: seq<T>)
    ensures IsSubseq(a, a)
    decreases |a|
  {
    if a != [] {
      SubseqRefl(a[1..]);
    }
  }

  lemma {:induction false} SubseqTrans<T>(a: seq<T>, b: seq<T>, c: seq<T>)
    requires IsSubseq(a, b) && IsSubseq(b, c)
    ensures IsSubseq(a, c)
    decreases |c|
  {
    if a == [] {
    } else if c == [] {
    } else if b[0] == c[0] && IsSubseq(b[1..], c[1..]) {
      if a[0] == b[0] && IsSubseq(a[1..], b[1..]) {
        SubseqTrans(a[1..], b[1..], c[1..]);
      } else {
        SubseqTrans(a, b[1..], c[1..]);
      }
    } else {
      SubseqTrans(a, b, c[1..]);
    }
  }

  /** Appending the same element to both sides keeps a subsequence. */
  lemma {:induction false} SubseqSnoc<T>(a: seq<T>, b: seq<T>, x: T)
    requires IsSubseq(a, b)
    ensures IsSubseq(a + [x], b + [x])
    decreases |b|
  {
    if b == [] {
      assert a == [];
      assert IsSubseq(a + [x], b + [x]) by {
        assert (a + [x])[1..] == [];
      }
    } else if a == [] {
      assert a + [x] == [x];
      SubseqLast(b, x);
    } else {
      assert (a + [x])[0] == a[0] && (a + [x])[1..] == a[1..] + [x];
      assert (b + [x])[0] == b[0] && (b + [x])[1..] == b[1..] + [x];
      if a[0] == b[0] && IsSubseq(a[1..], b[1..]) {
        SubseqSnoc(a[1..], b[1..], x);
      } else {
        SubseqSnoc(a, b[1..], x);
      }
    }
  }

  lemma {:induction false} SubseqLast<T>(b: seq<T>, x: T)
    ensures IsSubseq([x], b + [x])
    decreases |b|
  {
    if b == [] {
      assert ([x])[1..] == [];
    } else {
      assert (b + [x])[1..] == b[1..] + [x];
      SubseqLast(b[1..], x);
    }
  }

  /** Appending an element to the right-hand side only keeps a subsequence. */
  lemma {:induction false} SubseqExtend<T>(a: seq<T>, b: seq<T>, x: T)
    requires IsSubseq(a, b)
    ensures IsSubseq(a, b + [x])
    decreases |b|
  {
    if a == [] {
    } else {
      assert (b + [x])[0] == b[0] && (b + [x])[1..] == b[1..] + [x];
      if a[0] == b[0] && IsSubseq(a[1..], b[1..]) {
        SubseqExtend(a[1..], b[1..], x);
      } else {
        SubseqExtend(a, b[1..], x);
      }
    }
  }
}
