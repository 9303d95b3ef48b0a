/**
 * The Block-Nested-Loop algorithms as they run: a window list erased and
 * appended in place, a residual buffer filled by a running count, and the
 * recursive top-k on that buffer.  Each method is proved to compute what the
 * functions of `BnlSpec` describe, so the properties proved there carry over.
 */
module Bnl {
  import opened Wrappers
  import opened Seqs
  import opened Prefs
  import opened BnlSpec

  // ---------------------------------------------------------------------------
  // One step of the window scan

  /** The window scan as it stands after `j` kept members and the erasures `ev`. */
  ghost predicate Scanned(p: Pref, w0: seq<int>, c: int, window: seq<int>, j: int, ev: seq<int>)
    requires AllValid(p, w0) && AllValid(p, window) && Valid(p, c)
    requires 0 <= j <= |window|
  {
    var s := Scan(p, window[j..], c);
    Scan(p, w0, c) == ScanResult(window[..j] + s.window, ev + s.evicted, s.dominated)
  }

  /** A member that beats the candidate ends the scan with the window as it is. */
  lemma ScanStop(p: Pref, w0: seq<int>, c: int, window: seq<int>, j: int, ev: seq<int>)
    requires AllValid(p, w0) && AllValid(p, window) && Valid(p, c)
    requires 0 <= j < |window| && Scanned(p, w0, c, window, j, ev)
    requires Cmp(p, window[j], c)
    ensures Scan(p, w0, c) == ScanResult(window, ev, true)
  {
    assert window[..j] + window[j..] == window;
  }

  /** A member neither side beats is kept, and the scan moves past it. */
  lemma ScanKeep(p: Pref, w0: seq<int>, c: int, window: seq<int>, j: int, ev: seq<int>)
    requires AllValid(p, w0) && AllValid(p, window) && Valid(p, c)
    requires 0 <= j < |window| && Scanned(p, w0, c, window, j, ev)
    requires !Cmp(p, window[j], c) && !Cmp(p, c, window[j])
    ensures Scanned(p, w0, c, window, j + 1, ev)
  {
    var x, tail := window[j], window[j..];
    assert tail[0] == x && tail[1..] == window[j + 1..];
    var rest := Scan(p, window[j + 1..], c);
    assert Scan(p, tail, c) == ScanResult([x] + rest.window, rest.evicted, rest.dominated);
    assert window[..j + 1] == window[..j] + [x];
    assert window[..j] + ([x] + rest.window) == window[..j + 1] + rest.window;
  }

  /** A member the candidate beats is erased; the scan stays at the same position. */
  lemma ScanErase(p: Pref, w0: seq<int>, c: int, window: seq<int>, j: int, ev: seq<int>)
    requires AllValid(p, w0) && AllValid(p, window) && Valid(p, c)
    requires 0 <= j < |window| && Scanned(p, w0, c, window, j, ev)
    requires !Cmp(p, window[j], c) && Cmp(p, c, window[j])
    ensures AllValid(p, window[..j] + window[j + 1..])
    ensures Scanned(p, w0, c, window[..j] + window[j + 1..], j, ev + [window[j]])
  {
    var x, tail := window[j], window[j..];
    var w' := window[..j] + window[j + 1..];
    forall y | y in w'
      ensures Valid(p, y)
    {
      assert y in window[..j] || y in window[j + 1..];
    }
    assert tail[0] == x && tail[1..] == window[j + 1..];
    var rest := Scan(p, window[j + 1..], c);
    assert Scan(p, tail, c) == ScanResult(rest.window, [x] + rest.evicted, rest.dominated);
    assert w'[..j] == window[..j] && w'[j..] == window[j + 1..];
    assert ev + ([x] + rest.evicted) == (ev + [x]) + rest.evicted;
  }

  /** A scan that reaches the end of the window was never stopped. */
  lemma ScanEnd(p: Pref, w0: seq<int>, c: int, window: seq<int>, ev: seq<int>)
    requires AllValid(p, w0) && AllValid(p, window) && Valid(p, c)
    requires Scanned(p, w0, c, window, |window|, ev)
    ensures Scan(p, w0, c) == ScanResult(window, ev, false)
  {
    assert window[|window|..] == [] && window[..|window|] == window;
  }

  /** One more input tuple: the pass over `v[..i + 1]` continues the pass over `v[..i]`. */
  lemma PassStep(p: Pref, v: seq<int>, i: int)
    requires AllValid(p, v) && 1 <= i < |v|
    ensures AllValid(p, Pass(p, v[..i]).window) && Valid(p, v[i])
    ensures var prev := Pass(p, v[..i]);
      var s := Scan(p, prev.window, v[i]);
      Pass(p, v[..i + 1]) ==
        if s.dominated then PassResult(s.window, prev.residual + s.evicted + [v[i]])
        else PassResult(s.window + [v[i]], prev.residual + s.evicted)
  {
    assert v[..i + 1][..i] == v[..i];
  }

  /**
   * Scans `window` with candidate `c` (the inner loop of both BNL variants):
   * stops at the first member that beats `c`, and erases in place every
   * member `c` beats before that.
   */
  method ScanWindow(p: Pref, window: seq<int>, c: int) returns (window': seq<int>, dominated: bool)
    requires AllValid(p, window) && Valid(p, c)
    ensures window' == Scan(p, window, c).window && dominated == Scan(p, window, c).dominated
  {
    window' := window;
    dominated := false;
    ghost var ev: seq<int> := [];
    var j := 0;
    assert window[..0] == [] && window[0..] == window;
    while j < |window'|
      invariant 0 <= j <= |window'| && AllValid(p, window')
      invariant Scanned(p, window, c, window', j, ev)
      decreases |window'| - j
    {
      if Cmp(p, window'[j], c) {
        // a window member is better: the candidate is dominated
        ScanStop(p, window, c, window', j, ev);
        dominated := true;
        return;
      } else if Cmp(p, c, window'[j]) {
        // the candidate is better: erase the member and stay at this position
        ScanErase(p, window, c, window', j, ev);
        ev := ev + [window'[j]];
        window' := window'[..j] + window'[j + 1..];
      } else {
        ScanKeep(p, window, c, window', j, ev);
        j := j + 1;
      }
    }
    ScanEnd(p, window, c, window', ev);
  }

  // ---------------------------------------------------------------------------
  // Standard BNL

  /**
   * Standard BNL: the window starts with `v[0]`; every further tuple scans
   * it and joins at the tail unless a member beats it.
   */
  method BnlInternal(v: seq<int>, p: Pref) returns (window: seq<int>)
    requires |v| > 0 && AllValid(p, v)
    ensures window == Pass(p, v).window
  {
    window := [v[0]];
    assert v[..1] == [v[0]];
    var i := 1;
    while i < |v|
      invariant 1 <= i <= |v|
      invariant window == Pass(p, v[..i]).window
    {
      var c := v[i];
      PassStep(p, v, i);
      var dominated;
      window, dominated := ScanWindow(p, window, c);
      if !dominated {
        window := window + [c];
      }
      i := i + 1;
    }
    assert v[..i] == v;
  }

  // ---------------------------------------------------------------------------
  // Top-k BNL

  /**
   * The scan of the top-k variant: as `ScanWindow`, and every erased member is
   * also written to `buf` at the running `count`, while `wsize` follows the
   * window's length.
   */
  method ScanWindowInto(p: Pref, window: seq<int>, c: int, buf: array<int>, count: nat, wsize: nat)
    returns (window': seq<int>, dominated: bool, count': nat, wsize': nat)
    requires AllValid(p, window) && Valid(p, c)
    requires wsize == |window| && count + |window| <= buf.Length
    modifies buf
    ensures window' == Scan(p, window, c).window && dominated == Scan(p, window, c).dominated
    ensures wsize' == |window'| && count' + wsize' == count + wsize
    ensures buf[..count'] == old(buf[..count]) + Scan(p, window, c).evicted
  {
    window', dominated, count', wsize' := window, false, count, wsize;
    ghost var ev: seq<int> := [];
    var j := 0;
    assert window[..0] == [] && window[0..] == window;
    while j < |window'|
      invariant 0 <= j <= |window'| && AllValid(p, window')
      invariant wsize' == |window'| && count' + wsize' == count + wsize
      invariant buf[..count'] == old(buf[..count]) + ev
      invariant Scanned(p, window, c, window', j, ev)
      decreases |window'| - j
    {
      if Cmp(p, window'[j], c) {
        // a window member is better: the candidate is dominated
        ScanStop(p, window, c, window', j, ev);
        dominated := true;
        return;
      } else if Cmp(p, c, window'[j]) {
        // the candidate is better: move the member to the residual buffer
        ScanErase(p, window, c, window', j, ev);
        var x := window'[j];
        buf[count'] := x;
        assert buf[..count' + 1] == buf[..count'] + [x];
        count' := count' + 1;
        ev := ev + [x];
        AllValidErase(p, window', j);
        window' := window'[..j] + window'[j + 1..];
        wsize' := wsize' - 1;
      } else {
        ScanKeep(p, window, c, window', j, ev);
        j := j + 1;
      }
    }
    ScanEnd(p, window, c, window', ev);
  }

  /** Top-k below the input size, in terms of one full pass. */
  lemma TopKStep(p: Pref, v: seq<int>, k: nat)
    requires |v| > 0 && AllValid(p, v) && k < |v|
    ensures var pass := Pass(p, v);
      && (|pass.window| < k ==> |pass.residual| > 0 && AllValid(p, pass.residual))
      && TopK(p, v, k) ==
        if |pass.window| >= k then pass.window[..k]
        else pass.window + TopK(p, pass.residual, k - |pass.window|)
  {
  }

  /**
   * One iteration of the top-k loop: candidate `v[i]` scans the window, the
   * erased members go to `newV`, and the candidate is appended to the window
   * (`wsize++`) or, when dominated, written to `newV` as well (`count++`).
   */
  method TopkAdvance(v: seq<int>, p: Pref, newV: array<int>, i: nat, window: seq<int>, wsize: nat, count: nat)
    returns (window': seq<int>, wsize': nat, count': nat)
    requires AllValid(p, v) && 1 <= i < |v| && newV.Length == |v|
    requires wsize == |window| && count + wsize == i
    requires window == Pass(p, v[..i]).window && newV[..count] == Pass(p, v[..i]).residual
    modifies newV
    ensures wsize' == |window'| && count' + wsize' == i + 1
    ensures window' == Pass(p, v[..i + 1]).window && newV[..count'] == Pass(p, v[..i + 1]).residual
  {
    var c := v[i];
    PassStep(p, v, i);
    ghost var prev := Pass(p, v[..i]);
    ghost var s := Scan(p, prev.window, c);
    var dominated;
    window', dominated, count', wsize' := ScanWindowInto(p, window, c, newV, count, wsize);
    if !dominated {
      window' := window' + [c];
      wsize' := wsize' + 1;
    } else {
      newV[count'] := c;
      assert newV[..count' + 1] == newV[..count'] + [c];
      count' := count' + 1;
    }
  }

  /**
   * The loop of the top-k variant: one pass over `v`, with the window kept as
   * a list of `wsize` members and the residual written to `newV[..count]`.
   */
  method TopkPass(v: seq<int>, p: Pref, newV: array<int>) returns (window: seq<int>, wsize: nat, count: nat)
    requires |v| > 0 && AllValid(p, v) && newV.Length == |v|
    modifies newV
    ensures window == Pass(p, v).window && wsize == |window|
    ensures count <= newV.Length && newV[..count] == Pass(p, v).residual
  {
    var ntuples := |v|;
    window := [v[0]];
    wsize := 1;
    count := 0;
    assert v[..1] == [v[0]];
    var i := 1;
    while i < ntuples
      invariant 1 <= i <= ntuples && wsize == |window| && count + wsize == i
      invariant window == Pass(p, v[..i]).window && newV[..count] == Pass(p, v[..i]).residual
    {
      window, wsize, count := TopkAdvance(v, p, newV, i, window, wsize, count);
      i := i + 1;
    }
    assert v[..i] == v;
  }

  /**
   * Top-k BNL: the whole input when it has at most `topk` tuples; otherwise one
   * pass collects the window and the residual tuples; the window is cut to
   * `topk`, or filled up by the top-(topk - wsize) of the residual.
   */
  method BnlTopkInternal(v: seq<int>, p: Pref, topk: nat) returns (res: seq<int>)
    requires |v| > 0 && AllValid(p, v)
    ensures res == TopK(p, v, topk)
    decreases |v|
  {
    var ntuples := |v|;
    var newV := new int[ntuples];
    if topk >= ntuples {
      return v;
    }
    var window, wsize, count := TopkPass(v, p, newV);
    TopKStep(p, v, topk);
    if wsize >= topk {
      res := window[..topk];
    } else {
      var rest := BnlTopkInternal(newV[..count], p, topk - wsize);
      res := window + rest;
    }
  }

  // ---------------------------------------------------------------------------
  // The entry point

  /**
   * Preference selection over a score table given column by column: the tree
   * is deserialised with column numbering from 0, the index vector
   * `0..ntuples-1` is built, and `topk == -1` asks for the BNL window, a
   * `topk` of at least `ntuples` for every index, anything else for top-k BNL.
   */
  method PrefSelect(scores: seq<seq<real>>, serial: Serial, topk: int) returns (r: Result<seq<int>, DeserializeError>)
    requires |scores| > 0 && forall col | col in scores :: |col| == |scores[0]|
    requires topk >= -1 && (topk == -1 ==> |scores[0]| > 0)
    ensures var built := CreatePreference(serial, scores, 0);
      && (r.Err? <==> built.Err?)
      && (r.Err? ==> r.error == built.error)
    ensures r.Ok? <==> WellFormed(serial) && forall c | c in AsWrittenColumns(serial, 0) :: 0 <= c < |scores|
    ensures r.Ok? ==> var t, n := CreatePreference(serial, scores, 0).value, |scores[0]|;
      && AllValid(t, Iota(n))
      && (topk == -1 ==> r.value == Pass(t, Iota(n)).window)
      && (topk == -1 && UnionFree(t) ==> r.value == Skyline(t, Iota(n)))
      && (topk >= n ==> r.value == Iota(n))
      && (0 <= topk < n ==> r.value == TopK(t, Iota(n), topk))
      && (topk >= 0 ==> |r.value| == Min(topk, n))
  {
    var ntuples := |scores[0]|;
    var built := CreatePreference(serial, scores, 0);
    AsWrittenBuilds(serial, scores, 0);
    if built.Err? {
      return Err(built.error);
    }
    var pref := built.value;
    var v := IndexVector(ntuples);
    forall i | i in v
      ensures Valid(pref, i)
    {
      BuiltTreeValid(pref, scores, ntuples, i);
    }
    if topk == -1 {
      var window := BnlInternal(v, pref);
      if UnionFree(pref) {
        UnionFreeIsStrictPartialOrder(pref, v);
        PassIsSkyline(pref, v);
      }
      return Ok(window);
    }
    if topk >= ntuples {
      return Ok(v);
    }
    var res := BnlTopkInternal(v, pref, topk);
    return Ok(res);
  }
}
