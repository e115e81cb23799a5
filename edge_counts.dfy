/** Edge counting along paths. The edges of a path are the pairs of
    consecutive vertices; an edge dictionary maps each edge of a graph to the
    number of times a cycle sum traverses it, and is kept as the list of its
    (edge, count) entries in insertion order. */
module EdgeCounts {
  import opened TurnGraphs
  import opened Cycles

  /** The edges a path traverses, in order. */
  function EdgesOf(p: seq<int>): (es: seq<Edge>)
    ensures |es| == if p == [] then 0 else |p| - 1
    ensures forall i :: 0 <= i < |es| ==> es[i] == (p[i], p[i + 1])
  {
    if |p| <= 1 then [] else EdgesOf(p[..|p| - 1]) + [(p[|p| - 2], p[|p| - 1])]
  }

  /** `edges_path`. */
  method EdgesPath(p: seq<int>) returns (es: seq<Edge>)
    ensures es == EdgesOf(p)
  {
    es := [];
    var n := if p == [] then 0 else |p| - 1;
    for i := 0 to n
      invariant |es| == i
      invariant forall k :: 0 <= k < i ==> es[k] == (p[k], p[k + 1])
    {
      es := es + [(p[i], p[i + 1])];
    }
    assert |es| == |EdgesOf(p)|;
    forall k | 0 <= k < |es|
      ensures es[k] == EdgesOf(p)[k]
    {
      assert es[k] == (p[k], p[k + 1]);
    }
  }

  /** Following one path and then another that starts where the first ends
      traverses the edges of the first and then those of the second. */
  lemma EdgesJoin(p: seq<int>, q: seq<int>)
    requires p != [] && q != [] && p[|p| - 1] == q[0]
    ensures EdgesOf(p + q[1..]) == EdgesOf(p) + EdgesOf(q)
  {
    var j := p + q[1..];
    var a, b, e := EdgesOf(p), EdgesOf(q), EdgesOf(p + q[1..]);
    assert |e| == |a| + |b|;
    forall i | 0 <= i < |e|
      ensures e[i] == (a + b)[i]
    {
      if i < |a| {
        assert j[i] == p[i] && j[i + 1] == p[i + 1];
      } else {
        var k := i - |a|;
        assert j[i] == q[k] by {
          if k == 0 {
            assert j[i] == p[|p| - 1];
          } else {
            assert j[i] == q[1..][k - 1];
          }
        }
        assert j[i + 1] == q[1..][k];
      }
    }
  }

  /** The number of times e occurs in es. */
  function Occ(es: seq<Edge>, e: Edge): nat
  {
    if es == [] then 0
    else Occ(es[..|es| - 1], e) + if es[|es| - 1] == e then 1 else 0
  }

  lemma {:induction false} OccConcat(xs: seq<Edge>, ys: seq<Edge>, e: Edge)
    ensures Occ(xs + ys, e) == Occ(xs, e) + Occ(ys, e)
  {
    if ys == [] {
      assert xs + ys == xs;
    } else {
      assert (xs + ys)[..|xs + ys| - 1] == xs + ys[..|ys| - 1];
      OccConcat(xs, ys[..|ys| - 1], e);
    }
  }

  lemma {:induction false} OccPositive(es: seq<Edge>, e: Edge)
    ensures Occ(es, e) > 0 <==> e in es
  {
    if es != [] {
      var es' := es[..|es| - 1];
      OccPositive(es', e);
      assert es == es' + [es[|es| - 1]];
    }
  }

  /** `path_ne`: how many times the path p traverses the edge e. */
  function PathNe(p: seq<int>, e: Edge): nat
  {
    Occ(EdgesOf(p), e)
  }

  /** A path traverses e at least once exactly when e joins two consecutive
      vertices of it. */
  lemma PathNePositive(p: seq<int>, e: Edge)
    ensures PathNe(p, e) > 0 <==> exists i :: 0 <= i < |p| - 1 && p[i] == e.0 && p[i + 1] == e.1
  {
    var es := EdgesOf(p);
    OccPositive(es, e);
    if PathNe(p, e) > 0 {
      var i :| 0 <= i < |es| && es[i] == e;
      assert es[i] == (p[i], p[i + 1]);
    }
    if exists i :: 0 <= i < |p| - 1 && p[i] == e.0 && p[i + 1] == e.1 {
      var i :| 0 <= i < |p| - 1 && p[i] == e.0 && p[i + 1] == e.1;
      assert i < |es| && es[i] == (p[i], p[i + 1]);
      assert es[i] == e;
    }
  }

  /** Edge counts add up when one path follows another. */
  lemma PathNeJoin(p: seq<int>, q: seq<int>, e: Edge)
    requires p != [] && q != [] && p[|p| - 1] == q[0]
    ensures PathNe(p + q[1..], e) == PathNe(p, e) + PathNe(q, e)
  {
    EdgesJoin(p, q);
    OccConcat(EdgesOf(p), EdgesOf(q), e);
  }

  /** The source (into false) or the target (into true) of an edge. */
  function End(e: Edge, into: bool): int
  {
    if into then e.1 else e.0
  }

  /** The number of edges of es that leave v (into false) or enter v (into
      true). */
  function Touch(es: seq<Edge>, v: int, into: bool): nat
  {
    if es == [] then 0
    else Touch(es[..|es| - 1], v, into) + if End(es[|es| - 1], into) == v then 1 else 0
  }

  /** The number of times v occurs in vs. */
  function Visits(vs: seq<int>, v: int): nat
  {
    if vs == [] then 0
    else Visits(vs[..|vs| - 1], v) + if vs[|vs| - 1] == v then 1 else 0
  }

  /** A path leaves v once for each visit but the last, and enters v once for
      each visit but the first. */
  lemma {:induction false} TouchVisits(p: seq<int>, v: int)
    requires p != []
    ensures Touch(EdgesOf(p), v, false) == Visits(p[..|p| - 1], v)
    ensures Touch(EdgesOf(p), v, true) == Visits(p[1..], v)
  {
    if |p| > 1 {
      var p' := p[..|p| - 1];
      TouchVisits(p', v);
      assert EdgesOf(p)[..|EdgesOf(p)| - 1] == EdgesOf(p');
      assert p[1..][..|p[1..]| - 1] == p'[1..];
      assert p'[..|p'| - 1] == p[..|p| - 1][..|p| - 2];
    } else {
      assert p[1..] == [] && p[..|p| - 1] == [];
    }
  }

  lemma {:induction false} VisitsFront(vs: seq<int>, v: int)
    requires vs != []
    ensures Visits(vs, v) == Visits(vs[1..], v) + if vs[0] == v then 1 else 0
  {
    if |vs| > 1 {
      var vs' := vs[..|vs| - 1];
      VisitsFront(vs', v);
      assert vs[1..][..|vs[1..]| - 1] == vs'[1..];
    } else {
      assert vs[1..] == [];
      assert vs[..0] == [];
    }
  }

  /** A cycle enters every vertex as often as it leaves it. */
  lemma CycleBalanced(c: seq<int>, v: int)
    requires c != [] && c[0] == c[|c| - 1]
    ensures Touch(EdgesOf(c), v, false) == Touch(EdgesOf(c), v, true)
  {
    TouchVisits(c, v);
    if |c| > 1 {
      VisitsFront(c[..|c| - 1], v);
      assert c[..|c| - 1][1..] == c[1..][..|c| - 2];
      assert c[1..] == c[1..][..|c| - 2] + [c[0]];
      assert Visits(c[1..], v) == Visits(c[1..][..|c| - 2], v) + if c[0] == v then 1 else 0;
    }
  }

  /** The dictionary with the given keys and values, in that order. */
  function Zip(keys: seq<Edge>, vals: seq<int>): (d: seq<(Edge, int)>)
    requires |keys| == |vals|
    ensures |d| == |keys|
  {
    seq(|keys|, k requires 0 <= k < |keys| => (keys[k], vals[k]))
  }

  /** The sum of the values of the entries of d whose edge leaves v (into
      false) or enters v (into true). */
  function EndSum(d: seq<(Edge, int)>, v: int, into: bool): int
  {
    if d == [] then 0
    else EndSum(d[..|d| - 1], v, into) + if End(d[|d| - 1].0, into) == v then d[|d| - 1].1 else 0
  }

  /** `dict_nv`: how many times the edges of an edge dictionary leave v. */
  method DictNv(d: seq<(Edge, int)>, v: int) returns (nv: int)
    ensures nv == EndSum(d, v, false)
  {
    nv := 0;
    for i := 0 to |d|
      invariant nv == EndSum(d[..i], v, false)
    {
      assert d[..i + 1][..i] == d[..i];
      if d[i].0.0 == v {
        nv := nv + d[i].1;
      }
    }
    assert d[..|d|] == d;
  }

  lemma ZipLast(keys: seq<Edge>, vals: seq<int>)
    requires |keys| == |vals| > 0
    ensures var n := |keys| - 1;
      Zip(keys, vals)[..n] == Zip(keys[..n], vals[..n]) && Zip(keys, vals)[n] == (keys[n], vals[n])
  {
  }

  /** Summing the zero dictionary gives zero. */
  lemma {:induction false} EndSumZero(keys: seq<Edge>, vals: seq<int>, v: int, into: bool)
    requires |keys| == |vals| && forall k :: 0 <= k < |vals| ==> vals[k] == 0
    ensures EndSum(Zip(keys, vals), v, into) == 0
  {
    if keys != [] {
      var n := |keys| - 1;
      ZipLast(keys, vals);
      EndSumZero(keys[..n], vals[..n], v, into);
    }
  }

  /** Summing the dictionary values at a vertex is additive in the values. */
  lemma {:induction false} EndSumAdd(keys: seq<Edge>, a: seq<int>, b: seq<int>, v: int, into: bool)
    requires |keys| == |a| == |b|
    ensures EndSum(Zip(keys, Add(a, b)), v, into) ==
              EndSum(Zip(keys, a), v, into) + EndSum(Zip(keys, b), v, into)
  {
    if keys != [] {
      var n := |keys| - 1;
      ZipLast(keys, Add(a, b));
      ZipLast(keys, a);
      ZipLast(keys, b);
      assert Add(a, b)[..n] == Add(a[..n], b[..n]);
      EndSumAdd(keys[..n], a[..n], b[..n], v, into);
    }
  }

  /** Every value multiplied by c. */
  function Scale(c: int, a: seq<int>): (r: seq<int>)
    ensures |r| == |a|
  {
    seq(|a|, k requires 0 <= k < |a| => c * a[k])
  }

  /** Summing the dictionary values at a vertex commutes with scaling. */
  lemma {:induction false} EndSumScale(keys: seq<Edge>, c: int, a: seq<int>, v: int, into: bool)
    requires |keys| == |a|
    ensures EndSum(Zip(keys, Scale(c, a)), v, into) == c * EndSum(Zip(keys, a), v, into)
  {
    if keys != [] {
      var n := |keys| - 1;
      ZipLast(keys, Scale(c, a));
      ZipLast(keys, a);
      assert Scale(c, a)[..n] == Scale(c, a[..n]);
      EndSumScale(keys[..n], c, a[..n], v, into);
      Distribute(c, EndSum(Zip(keys[..n], a[..n]), v, into),
                 if End(keys[n], into) == v then a[n] else 0);
    }
  }

  lemma Distribute(c: int, x: int, y: int)
    ensures c * (x + y) == c * x + c * y
  {
  }

  /** The number of times each key occurs in es. */
  function Counts(keys: seq<Edge>, es: seq<Edge>): (c: seq<int>)
    ensures |c| == |keys|
  {
    seq(|keys|, k requires 0 <= k < |keys| => Occ(es, keys[k]))
  }

  /** 1 at the position of f among the keys, 0 elsewhere. */
  function Indicator(keys: seq<Edge>, f: Edge): (c: seq<int>)
    ensures |c| == |keys|
  {
    seq(|keys|, k requires 0 <= k < |keys| => if keys[k] == f then 1 else 0)
  }

  /** The indicator of a key that occurs once sums to 1 at its ends. */
  lemma {:induction false} EndSumIndicator(keys: seq<Edge>, f: Edge, v: int, into: bool)
    requires NoDup(keys)
    ensures EndSum(Zip(keys, Indicator(keys, f)), v, into) ==
              if f in keys && End(f, into) == v then 1 else 0
  {
    if keys != [] {
      var n := |keys| - 1;
      ZipLast(keys, Indicator(keys, f));
      assert Indicator(keys, f)[..n] == Indicator(keys[..n], f);
      assert NoDup(keys[..n]);
      EndSumIndicator(keys[..n], f, v, into);
      assert keys == keys[..n] + [keys[n]];
      assert keys[n] == f ==> f !in keys[..n];
    }
  }

  /** The dictionary counting an edge list over keys that hold each of its
      edges once sums, at each vertex, to the number of its edges that leave
      (or enter) that vertex. */
  lemma {:induction false} EndSumCounts(keys: seq<Edge>, es: seq<Edge>, v: int, into: bool)
    requires NoDup(keys) && forall x :: x in es ==> x in keys
    ensures EndSum(Zip(keys, Counts(keys, es)), v, into) == Touch(es, v, into)
  {
    if es == [] {
      EndSumZero(keys, Counts(keys, es), v, into);
    } else {
      var n := |es| - 1;
      var f := es[n];
      assert Counts(keys, es) == Add(Counts(keys, es[..n]), Indicator(keys, f)) by {
        forall k | 0 <= k < |keys|
          ensures Occ(es, keys[k]) == Occ(es[..n], keys[k]) + if keys[k] == f then 1 else 0
        {
        }
      }
      EndSumAdd(keys, Counts(keys, es[..n]), Indicator(keys, f), v, into);
      EndSumIndicator(keys, f, v, into);
      EndSumCounts(keys, es[..n], v, into);
    }
  }

  /** The number of times the cycle sum with weights w, over the first n
      cycles, traverses e. */
  function WCount(cycles: seq<seq<int>>, w: seq<int>, e: Edge, n: nat): int
    requires n <= |cycles| && n <= |w|
  {
    if n == 0 then 0 else WCount(cycles, w, e, n - 1) + w[n - 1] * PathNe(cycles[n - 1], e)
  }

  /** The edge counts of a cycle sum over the first n cycles, one per key. */
  function WCounts(keys: seq<Edge>, cycles: seq<seq<int>>, w: seq<int>, n: nat): (c: seq<int>)
    requires n <= |cycles| && n <= |w|
    ensures |c| == |keys|
  {
    seq(|keys|, k requires 0 <= k < |keys| => WCount(cycles, w, keys[k], n))
  }

  lemma WCountsStep(keys: seq<Edge>, cycles: seq<seq<int>>, w: seq<int>, n: nat)
    requires 0 < n <= |cycles| && n <= |w|
    ensures WCounts(keys, cycles, w, n) ==
              Add(WCounts(keys, cycles, w, n - 1), Scale(w[n - 1], Counts(keys, EdgesOf(cycles[n - 1]))))
  {
  }

  /** The weighted number of edges of the first n cycles that leave (or
      enter) v. */
  function WTouch(cycles: seq<seq<int>>, w: seq<int>, v: int, into: bool, n: nat): int
    requires n <= |cycles| && n <= |w|
  {
    if n == 0 then 0
    else WTouch(cycles, w, v, into, n - 1) + w[n - 1] * Touch(EdgesOf(cycles[n - 1]), v, into)
  }

  /** Every edge of the first n cycles is a key. */
  predicate Covers(keys: seq<Edge>, cycles: seq<seq<int>>, n: nat)
    requires n <= |cycles|
  {
    forall i, x :: 0 <= i < n && x in EdgesOf(cycles[i]) ==> x in keys
  }

  lemma WeightedStep(keys: seq<Edge>, cycles: seq<seq<int>>, w: seq<int>, v: int, into: bool, n: nat)
    requires 0 < n <= |cycles| && n <= |w| && NoDup(keys)
    requires forall x :: x in EdgesOf(cycles[n - 1]) ==> x in keys
    requires EndSum(Zip(keys, WCounts(keys, cycles, w, n - 1)), v, into) == WTouch(cycles, w, v, into, n - 1)
    ensures EndSum(Zip(keys, WCounts(keys, cycles, w, n)), v, into) == WTouch(cycles, w, v, into, n)
  {
    var es := EdgesOf(cycles[n - 1]);
    var prev := WCounts(keys, cycles, w, n - 1);
    var last := Scale(w[n - 1], Counts(keys, es));
    WCountsStep(keys, cycles, w, n);
    EndSumAdd(keys, prev, last, v, into);
    EndSumScale(keys, w[n - 1], Counts(keys, es), v, into);
    EndSumCounts(keys, es, v, into);
  }

  /** The edge dictionary of a cycle sum sums, at each vertex, to the
      weighted number of times its cycles leave (or enter) that vertex. */
  lemma {:induction false} EndSumWeighted(keys: seq<Edge>, cycles: seq<seq<int>>, w: seq<int>,
                                         v: int, into: bool, n: nat)
    requires n <= |cycles| && n <= |w| && NoDup(keys) && Covers(keys, cycles, n)
    ensures EndSum(Zip(keys, WCounts(keys, cycles, w, n)), v, into) == WTouch(cycles, w, v, into, n)
  {
    if n == 0 {
      EndSumZero(keys, WCounts(keys, cycles, w, n), v, into);
    } else {
      assert Covers(keys, cycles, n - 1);
      EndSumWeighted(keys, cycles, w, v, into, n - 1);
      WeightedStep(keys, cycles, w, v, into, n);
    }
  }

  /** Every cycle is closed: its last vertex repeats its first. */
  predicate Closed(cycles: seq<seq<int>>)
  {
    forall i :: 0 <= i < |cycles| ==> cycles[i] != [] && cycles[i][0] == cycles[i][|cycles[i]| - 1]
  }

  lemma {:induction false} WTouchBalanced(cycles: seq<seq<int>>, w: seq<int>, v: int, n: nat)
    requires n <= |cycles| && n <= |w| && Closed(cycles)
    ensures WTouch(cycles, w, v, false, n) == WTouch(cycles, w, v, true, n)
  {
    if n > 0 {
      WTouchBalanced(cycles, w, v, n - 1);
      CycleBalanced(cycles[n - 1], v);
    }
  }

  /** The edge dictionary of any cycle sum is balanced: at every vertex the
      counts of the edges leaving it, which `dict_nv` adds up, equal the
      counts of the edges entering it. */
  lemma DictBalanced(keys: seq<Edge>, cycles: seq<seq<int>>, w: seq<int>, v: int)
    requires |w| == |cycles| && NoDup(keys) && Covers(keys, cycles, |cycles|) && Closed(cycles)
    ensures var d := Zip(keys, WCounts(keys, cycles, w, |cycles|));
      EndSum(d, v, false) == EndSum(d, v, true)
  {
    EndSumWeighted(keys, cycles, w, v, false, |cycles|);
    EndSumWeighted(keys, cycles, w, v, true, |cycles|);
    WTouchBalanced(cycles, w, v, |cycles|);
  }

  /** The edges of d with a nonzero count, in order. */
  function Support(d: seq<(Edge, int)>): seq<Edge>
  {
    if d == [] then []
    else Support(d[..|d| - 1]) + if d[|d| - 1].1 != 0 then [d[|d| - 1].0] else []
  }

  /** An edge is in the support exactly when some entry gives it a nonzero
      count. */
  lemma {:induction false} SupportMembers(d: seq<(Edge, int)>, e: Edge)
    ensures e in Support(d) <==> exists k :: 0 <= k < |d| && d[k].0 == e && d[k].1 != 0
  {
    if d != [] {
      var n := |d| - 1;
      var d' := d[..n];
      SupportMembers(d', e);
      if d[n].0 == e && d[n].1 != 0 {
        assert e in Support(d);
      } else {
        assert e in Support(d) <==> e in Support(d');
        if exists k :: 0 <= k < |d| && d[k].0 == e && d[k].1 != 0 {
          var k :| 0 <= k < |d| && d[k].0 == e && d[k].1 != 0;
          assert d'[k] == d[k];
        }
        if exists k :: 0 <= k < n && d'[k].0 == e && d'[k].1 != 0 {
          var k :| 0 <= k < n && d'[k].0 == e && d'[k].1 != 0;
          assert d'[k] == d[k];
        }
      }
    }
  }

  /** The inner sum of the candidate step: how many times the cycle sum with
      weights w traverses e. */
  method EdgeWeight(cycles: seq<seq<int>>, w: seq<int>, e: Edge) returns (ne: int)
    requires |w| == |cycles|
    ensures ne == WCount(cycles, w, e, |cycles|)
  {
    ne := 0;
    for i := 0 to |cycles|
      invariant ne == WCount(cycles, w, e, i)
    {
      ne := ne + w[i] * PathNe(cycles[i], e);
    }
  }

  /** The test and the edge dictionary that `X_variable_list` computes for
      one weight vector w over the cycles of a component whose edges are
      keys: the cycle sum is a potential disk when the modulus of its type
      divides its degree, and then its dictionary counts each key and its
      support lists the keys of nonzero count. */
  method CandidateStep(keys: seq<Edge>, cycles: seq<seq<int>>, w: seq<int>,
                       sdegrees: seq<int>, stypes: seq<int>, m: int, l: int)
    returns (potential: bool, d: seq<(Edge, int)>, support: seq<Edge>)
    requires |w| == |cycles| == |sdegrees| == |stypes|
    requires m != 0 && l != 0
    ensures potential <==> Divides(ModValue(ScanType(w, stypes, -1), m, l), Dot(w, sdegrees))
    ensures potential ==> d == Zip(keys, WCounts(keys, cycles, w, |cycles|)) && support == Support(d)
    ensures !potential ==> d == [] && support == []
  {
    var deg := CycleSumDegree(w, sdegrees);
    var ty := CycleSumType(w, stypes);
    var r := ModValue(ty, m, l);
    ModValueNonzero(ty, m, l);
    ModZero(deg, r);
    d, support := [], [];
    potential := deg % r == 0;
    if potential {
      for k := 0 to |keys|
        invariant |d| == k
        invariant forall j :: 0 <= j < k ==> d[j] == (keys[j], WCount(cycles, w, keys[j], |cycles|))
        invariant support == Support(d)
      {
        var ne := EdgeWeight(cycles, w, keys[k]);
        assert (d + [(keys[k], ne)])[..k] == d;
        d := d + [(keys[k], ne)];
        if ne != 0 {
          support := support + [keys[k]];
        }
      }
      assert forall j :: 0 <= j < |keys| ==> d[j] == Zip(keys, WCounts(keys, cycles, w, |cycles|))[j];
    }
  }
}
