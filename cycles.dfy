/** Arithmetic on the cycles of a turn graph. A path is a list of vertices, a
    cycle is a path whose last vertex repeats its first, and a cycle sum is a
    vector of weights, one per cycle. This module computes the degree and the
    type of a cycle and of a cycle sum, the modulus a degree is tested against,
    and the number of times a path uses an edge. */
module Cycles {
  import opened Words
  import opened TurnGraphs
  import NormalForms

  /** Every vertex of vs indexes a table of length n. */
  predicate Vertices(vs: seq<int>, n: int)
  {
    forall k :: 0 <= k < |vs| ==> 0 <= vs[k] < n
  }

  /** The vertices of a cycle without the closing one. */
  function Open(c: seq<int>): (vs: seq<int>)
    ensures |vs| == if c == [] then 0 else |c| - 1
  {
    if c == [] then [] else c[..|c| - 1]
  }

  /** The sum of a per-vertex table over the vertices of vs. */
  function SumAlong(vs: seq<int>, table: seq<int>): int
    requires Vertices(vs, |table|)
  {
    if vs == [] then 0 else SumAlong(vs[..|vs| - 1], table) + table[vs[|vs| - 1]]
  }

  /** The sum over a concatenation is the sum of the sums. */
  lemma {:induction false} SumAlongConcat(xs: seq<int>, ys: seq<int>, table: seq<int>)
    requires Vertices(xs, |table|) && Vertices(ys, |table|)
    ensures Vertices(xs + ys, |table|)
    ensures SumAlong(xs + ys, table) == SumAlong(xs, table) + SumAlong(ys, table)
  {
    if ys == [] {
      assert xs + ys == xs;
    } else {
      var ys' := ys[..|ys| - 1];
      assert (xs + ys)[..|xs + ys| - 1] == xs + ys';
      SumAlongConcat(xs, ys', table);
    }
  }

  /** The degree of a cycle: the turn degrees summed over all its vertices
      but the closing one. */
  function Degree(c: seq<int>, degree: seq<int>): int
    requires Vertices(Open(c), |degree|)
  {
    SumAlong(Open(c), degree)
  }

  /** `cycle_degree`. */
  method CycleDegree(c: seq<int>, degree: seq<int>) returns (d: int)
    requires Vertices(Open(c), |degree|)
    ensures d == Degree(c, degree)
  {
    var vs := Open(c);
    d := 0;
    for i := 0 to |vs|
      invariant d == SumAlong(vs[..i], degree)
    {
      assert vs[..i + 1][..i] == vs[..i];
      d := d + degree[vs[i]];
    }
    assert vs[..|vs|] == vs;
  }

  /** Starting a closed cycle at another of its vertices does not change its
      degree. */
  lemma DegreeRotate(vs: seq<int>, k: nat, degree: seq<int>)
    requires k < |vs| && Vertices(vs, |degree|)
    ensures Vertices(Open(vs + [vs[0]]), |degree|)
    ensures Vertices(Open(vs[k..] + vs[..k] + [vs[k]]), |degree|)
    ensures Degree(vs[k..] + vs[..k] + [vs[k]], degree) == Degree(vs + [vs[0]], degree)
  {
    assert Open(vs + [vs[0]]) == vs;
    assert Open(vs[k..] + vs[..k] + [vs[k]]) == vs[k..] + vs[..k];
    assert vs[..k] + vs[k..] == vs;
    SumAlongConcat(vs[k..], vs[..k], degree);
    SumAlongConcat(vs[..k], vs[k..], degree);
  }

  /** Two cycles through the same vertex, followed one after the other, form
      a cycle whose degree is the sum of theirs. */
  lemma DegreeJoin(c1: seq<int>, c2: seq<int>, degree: seq<int>)
    requires c1 != [] && c2 != [] && c1[|c1| - 1] == c2[0]
    requires Vertices(c1, |degree|) && Vertices(c2, |degree|)
    ensures Vertices(Open(c1 + c2[1..]), |degree|)
    ensures Degree(c1 + c2[1..], degree) == Degree(c1, degree) + Degree(c2, degree)
  {
    var j := c1 + c2[1..];
    if |c2| == 1 {
      assert j == c1;
      assert Open(c2) == [];
    } else {
      assert Open(j) == Open(c1) + Open(c2) by {
        assert Open(c2) == [c2[0]] + c2[1..|c2| - 1];
        assert Open(j) == c1 + c2[1..|c2| - 1];
        assert c1 == Open(c1) + [c2[0]];
      }
      SumAlongConcat(Open(c1), Open(c2), degree);
    }
  }

  /** The weighted sum of the first |w| entries of s. */
  function Dot(w: seq<int>, s: seq<int>): int
    requires |w| <= |s|
  {
    if w == [] then 0 else Dot(w[..|w| - 1], s) + w[|w| - 1] * s[|w| - 1]
  }

  /** `cycle_sum_degree`: the degree of a cycle sum, each cycle's degree
      counted with its weight. */
  method CycleSumDegree(w: seq<int>, sdegrees: seq<int>) returns (d: int)
    requires |w| <= |sdegrees|
    ensures d == Dot(w, sdegrees)
  {
    d := 0;
    for i := 0 to |w|
      invariant d == Dot(w[..i], sdegrees)
    {
      assert w[..i + 1][..i] == w[..i];
      d := d + w[i] * sdegrees[i];
    }
    assert w[..|w|] == w;
  }

  /** The weight vector of n cycles that takes cycle i once. */
  function Unit(i: nat, n: nat): (u: seq<int>)
    ensures |u| == n
  {
    seq(n, k => if k == i then 1 else 0)
  }

  /** Cycle sums add componentwise. */
  function Add(w1: seq<int>, w2: seq<int>): (w: seq<int>)
    requires |w1| == |w2|
    ensures |w| == |w1|
  {
    seq(|w1|, k requires 0 <= k < |w1| => w1[k] + w2[k])
  }

  /** A single cycle, taken once, has that cycle's degree. */
  lemma {:induction false} DotUnit(i: nat, n: nat, s: seq<int>)
    requires i < n <= |s|
    ensures Dot(Unit(i, n), s) == s[i]
  {
    DotUnitPrefix(i, n, n, s);
    assert Unit(i, n)[..n] == Unit(i, n);
  }

  lemma {:induction false} DotUnitPrefix(i: nat, n: nat, j: nat, s: seq<int>)
    requires j <= n <= |s| && i < n
    ensures Dot(Unit(i, n)[..j], s) == if i < j then s[i] else 0
  {
    if j > 0 {
      var u := Unit(i, n)[..j];
      assert u[..j - 1] == Unit(i, n)[..j - 1];
      DotUnitPrefix(i, n, j - 1, s);
    } else {
      assert Unit(i, n)[..j] == [];
    }
  }

  /** The degree of a cycle sum is linear in its weights. */
  lemma {:induction false} DotAdd(w1: seq<int>, w2: seq<int>, s: seq<int>)
    requires |w1| == |w2| <= |s|
    ensures Dot(Add(w1, w2), s) == Dot(w1, s) + Dot(w2, s)
  {
    if w1 != [] {
      var n := |w1| - 1;
      assert Add(w1, w2)[..n] == Add(w1[..n], w2[..n]);
      DotAdd(w1[..n], w2[..n], s);
      assert (w1[n] + w2[n]) * s[n] == w1[n] * s[n] + w2[n] * s[n];
    }
  }

  /** Every vertex of c has the type of its first vertex. */
  predicate Uniform(c: seq<int>, types: seq<int>)
    requires c != [] && Vertices(c, |types|)
  {
    forall k :: 0 <= k < |c| ==> types[c[k]] == types[c[0]]
  }

  /** `cycle_type`: the common type of the turns of c, or 0 (mixed) when
      two of them differ. */
  method CycleType(c: seq<int>, types: seq<int>) returns (t: int)
    requires c != [] && Vertices(c, |types|)
    ensures Uniform(c, types) ==> t == types[c[0]]
    ensures !Uniform(c, types) ==> t == 0
  {
    t := types[c[0]];
    for i := 1 to |c|
      invariant forall k :: 0 <= k < i ==> types[c[k]] == t
    {
      if types[c[i]] != t {
        return 0;
      }
    }
  }

  /** The type of a cycle, as `cycle_type` computes it. */
  function TypeOf(c: seq<int>, types: seq<int>): int
    requires c != [] && Vertices(c, |types|)
  {
    if Uniform(c, types) then types[c[0]] else 0
  }

  /** Two cycles through the same vertex, followed one after the other, form
      a cycle of their common type, or a mixed one when their types differ. */
  lemma TypeJoin(c1: seq<int>, c2: seq<int>, types: seq<int>)
    requires c1 != [] && c2 != [] && c1[|c1| - 1] == c2[0]
    requires Vertices(c1, |types|) && Vertices(c2, |types|)
    ensures Vertices(c1 + c2[1..], |types|)
    ensures TypeOf(c1 + c2[1..], types) ==
              if TypeOf(c1, types) == TypeOf(c2, types) then TypeOf(c1, types) else 0
  {
    var j := c1 + c2[1..];
    assert Vertices(j, |types|);
    assert j[0] == c1[0];
    if Uniform(c1, types) && Uniform(c2, types) && types[c1[0]] == types[c2[0]] {
      forall k | 0 <= k < |j|
        ensures types[j[k]] == types[j[0]]
      {
        if k < |c1| {
          assert j[k] == c1[k];
        } else {
          assert j[k] == c2[k - |c1| + 1];
        }
      }
      assert Uniform(j, types);
    }
    if Uniform(j, types) {
      assert forall k :: 0 <= k < |c1| ==> types[c1[k]] == types[j[k]];
      assert forall k :: 0 < k < |c2| ==> types[c2[k]] == types[j[|c1| + k - 1]];
      assert types[c2[0]] == types[j[|c1| - 1]];
      assert Uniform(c1, types);
      assert Uniform(c2, types);
    }
  }

  /** The type of a cycle sum read from the front, with cur the type found so
      far (-1 while none is set): the first cycle of nonzero weight sets the
      type, and a later one of another type makes the sum mixed (0). */
  function ScanType(w: seq<int>, stypes: seq<int>, cur: int): int
    requires |w| <= |stypes|
  {
    if w == [] then cur
    else if w[0] != 0 && cur == -1 then ScanType(w[1..], stypes[1..], stypes[0])
    else if w[0] != 0 && stypes[0] != cur then 0
    else ScanType(w[1..], stypes[1..], cur)
  }

  /** `cycle_sum_type`. */
  method CycleSumType(w: seq<int>, stypes: seq<int>) returns (t: int)
    requires |w| <= |stypes|
    ensures t == ScanType(w, stypes, -1)
  {
    t := -1;
    for i := 0 to |w|
      invariant ScanType(w[i..], stypes[i..], t) == ScanType(w, stypes, -1)
    {
      assert w[i..][1..] == w[i + 1..] && stypes[i..][1..] == stypes[i + 1..];
      if w[i] != 0 {
        if t == -1 {
          t := stypes[i];
        } else if stypes[i] != t {
          return 0;
        }
      }
    }
    assert w[|w|..] == [];
  }

  /** The index of the first nonzero weight, or |w| when there is none. */
  function FirstNonzero(w: seq<int>): (f: nat)
    ensures f <= |w| && (f < |w| ==> w[f] != 0)
    ensures forall k :: 0 <= k < f ==> w[k] == 0
  {
    if w == [] then 0 else if w[0] != 0 then 0 else FirstNonzero(w[1..]) + 1
  }

  /** Every cycle of nonzero weight has type t. */
  predicate Agree(w: seq<int>, stypes: seq<int>, t: int)
    requires |w| <= |stypes|
  {
    forall k :: 0 <= k < |w| && w[k] != 0 ==> stypes[k] == t
  }

  /** Once a type is set, the scan keeps it exactly when every remaining
      cycle of nonzero weight has it. */
  lemma {:induction false} ScanAgree(w: seq<int>, stypes: seq<int>, cur: int)
    requires |w| <= |stypes| && cur != -1
    ensures ScanType(w, stypes, cur) == if Agree(w, stypes, cur) then cur else 0
  {
    if w != [] {
      ScanAgree(w[1..], stypes[1..], cur);
      assert Agree(w, stypes, cur) <==>
        (w[0] != 0 ==> stypes[0] == cur) && Agree(w[1..], stypes[1..], cur)
      by {
        if (w[0] != 0 ==> stypes[0] == cur) && Agree(w[1..], stypes[1..], cur) {
          forall k | 0 <= k < |w| && w[k] != 0
            ensures stypes[k] == cur
          {
            if k > 0 {
              assert w[1..][k - 1] == w[k];
            }
          }
        }
      }
    }
  }

  /** Weights equal to zero in front are skipped. */
  lemma {:induction false} ScanZeros(w: seq<int>, stypes: seq<int>, f: nat)
    requires |w| <= |stypes| && f <= |w|
    requires forall k :: 0 <= k < f ==> w[k] == 0
    ensures ScanType(w, stypes, -1) == ScanType(w[f..], stypes[f..], -1)
  {
    if f > 0 {
      ScanZeros(w[1..], stypes[1..], f - 1);
      assert w[1..][f - 1..] == w[f..] && stypes[1..][f - 1..] == stypes[f..];
    }
  }

  /** What `cycle_sum_type` computes: -1 when every weight is zero;
      otherwise the type of the first cycle of nonzero weight when every
      cycle of nonzero weight has that type, and 0 (mixed) when two of them
      differ. The type of the first such cycle must be set (not -1). */
  lemma SumTypeMeaning(w: seq<int>, stypes: seq<int>)
    requires |w| <= |stypes|
    requires FirstNonzero(w) < |w| ==> stypes[FirstNonzero(w)] != -1
    ensures var f := FirstNonzero(w);
      && (f == |w| ==> ScanType(w, stypes, -1) == -1)
      && (f < |w| ==> ScanType(w, stypes, -1) ==
                        if Agree(w, stypes, stypes[f]) then stypes[f] else 0)
  {
    var f := FirstNonzero(w);
    ScanZeros(w, stypes, f);
    if f < |w| {
      var t := stypes[f];
      ScanAgree(w[f + 1..], stypes[f + 1..], t);
      assert w[f..][1..] == w[f + 1..] && stypes[f..][1..] == stypes[f + 1..];
      assert Agree(w, stypes, t) <==> Agree(w[f + 1..], stypes[f + 1..], t) by {
        if Agree(w[f + 1..], stypes[f + 1..], t) {
          forall k | 0 <= k < |w| && w[k] != 0
            ensures stypes[k] == t
          {
            if k > f {
              assert w[f + 1..][k - f - 1] == w[k];
            }
          }
        }
      }
    } else {
      assert w[f..] == [];
    }
  }

  /** A cycle sum of one cycle, taken once, has that cycle's type. */
  lemma SumTypeUnit(i: nat, n: nat, stypes: seq<int>)
    requires i < n <= |stypes| && stypes[i] != -1
    ensures ScanType(Unit(i, n), stypes, -1) == stypes[i]
  {
    var u := Unit(i, n);
    assert FirstNonzero(u) == i by {
      assert u[i] != 0;
    }
    SumTypeMeaning(u, stypes);
    assert Agree(u, stypes, stypes[i]);
  }

  /** The type of the sum of two cycles through the same vertex, each taken
      once, is the type of the cycle that follows one and then the other. */
  lemma SumTypeJoin(c1: seq<int>, c2: seq<int>, types: seq<int>)
    requires c1 != [] && c2 != [] && c1[|c1| - 1] == c2[0]
    requires Vertices(c1, |types|) && Vertices(c2, |types|)
    requires TypeOf(c1, types) != -1
    ensures Vertices(c1 + c2[1..], |types|)
    ensures ScanType([1, 1], [TypeOf(c1, types), TypeOf(c2, types)], -1)
              == TypeOf(c1 + c2[1..], types)
  {
    TypeJoin(c1, c2, types);
    var a, b := TypeOf(c1, types), TypeOf(c2, types);
    assert [1, 1][1..] == [1] && [a, b][1..] == [b];
    assert [1][1..] == [] && [b][1..] == [];
    assert ScanType([1, 1], [a, b], -1) == ScanType([1], [b], a);
    assert ScanType([1], [b], a) == if a == b then a else 0;
  }

  function Mul(a: int, b: int): int { a * b }

  /** d divides n. */
  ghost predicate Divides(d: int, n: int)
  {
    exists k :: Mul(d, k) == n
  }

  /** The greatest common divisor of a and b, by Euclid's algorithm. */
  function Gcd(a: nat, b: nat): nat
    decreases b
  {
    if b == 0 then a else Gcd(b, a % b)
  }

  /** Gcd(a, b) divides a and b. */
  lemma {:induction false} GcdDivides(a: nat, b: nat)
    ensures Divides(Gcd(a, b), a) && Divides(Gcd(a, b), b)
    decreases b
  {
    var g := Gcd(a, b);
    if b == 0 {
      assert Mul(g, 1) == a && Mul(g, 0) == b;
    } else {
      GcdDivides(b, a % b);
      var k1 :| Mul(g, k1) == b;
      var k2 :| Mul(g, k2) == a % b;
      var q := a / b;
      assert a == q * b + a % b;
      assert Mul(g, q * k1 + k2) == q * (g * k1) + g * k2;
      assert Mul(g, q * k1 + k2) == a;
    }
  }

  /** Every common divisor of a and b divides Gcd(a, b). */
  lemma {:induction false} GcdGreatest(a: nat, b: nat, d: int)
    requires Divides(d, a) && Divides(d, b)
    ensures Divides(d, Gcd(a, b))
    decreases b
  {
    if b != 0 {
      var ka :| Mul(d, ka) == a;
      var kb :| Mul(d, kb) == b;
      var q := a / b;
      assert a % b == a - q * b;
      assert Mul(d, ka - q * kb) == d * ka - q * (d * kb);
      assert Mul(d, ka - q * kb) == a % b;
      GcdGreatest(b, a % b, d);
    }
  }

  /** The gcd of two numbers that are not both zero is positive. */
  lemma {:induction false} GcdPositive(a: nat, b: nat)
    requires a != 0 || b != 0
    ensures Gcd(a, b) > 0
    decreases b
  {
    if b != 0 {
      GcdPositive(b, a % b);
    }
  }

  /** d divides n exactly when it divides -n. */
  lemma DividesAbs(d: int, n: int)
    ensures Divides(d, n) <==> Divides(d, Abs(n))
  {
    if Divides(d, n) {
      var k :| Mul(d, k) == n;
      assert Mul(d, -k) == -n;
    }
    if Divides(d, Abs(n)) && n < 0 {
      var k :| Mul(d, k) == Abs(n);
      assert Mul(d, -k) == n;
    }
  }

  /** `mod_value`: the modulus a cycle degree is tested against, by cycle
      type: gcd(m, l) for a mixed cycle, m for type 1, l for type 2, and -1
      for any other type. */
  function ModValue(t: int, m: int, l: int): int
  {
    if t == 0 then Gcd(Abs(m), Abs(l))
    else if t == 1 then m
    else if t == 2 then l
    else -1
  }

  /** The modulus of a mixed cycle is the greatest common divisor of m and
      l: a nonnegative common divisor that every common divisor divides. */
  lemma ModValueMixed(m: int, l: int)
    ensures ModValue(0, m, l) >= 0
    ensures Divides(ModValue(0, m, l), m) && Divides(ModValue(0, m, l), l)
    ensures forall d :: Divides(d, m) && Divides(d, l) ==> Divides(d, ModValue(0, m, l))
  {
    var g := Gcd(Abs(m), Abs(l));
    GcdDivides(Abs(m), Abs(l));
    DividesAbs(g, m);
    DividesAbs(g, l);
    forall d | Divides(d, m) && Divides(d, l)
      ensures Divides(d, g)
    {
      DividesAbs(d, m);
      DividesAbs(d, l);
      GcdGreatest(Abs(m), Abs(l), d);
    }
  }

  /** With m and l nonzero, as in a Baumslag-Solitar group, the modulus is
      never zero, so the divisibility test of a candidate is defined. */
  lemma ModValueNonzero(t: int, m: int, l: int)
    requires m != 0 && l != 0
    ensures ModValue(t, m, l) != 0
    ensures t == 1 ==> ModValue(t, m, l) == m
    ensures t == 2 ==> ModValue(t, m, l) == l
    ensures t !in {0, 1, 2} ==> ModValue(t, m, l) == -1
  {
    if t == 0 {
      GcdPositive(Abs(m), Abs(l));
    }
  }

  /** A nonzero multiple of r is at least as large as r. */
  lemma MultipleAtLeast(r: int, j: int)
    requires r != 0 && j != 0
    ensures Abs(r * j) >= Abs(r)
  {
    NormalForms.MulAtLeast(Abs(j), Abs(r));
    assert Abs(j) * Abs(r) == Abs(r * j);
  }

  /** x % r is zero exactly when r divides x. */
  lemma ModZero(x: int, r: int)
    requires r != 0
    ensures x % r == 0 <==> Divides(r, x)
  {
    if x % r == 0 {
      assert Mul(r, x / r) == x;
    }
    if Divides(r, x) {
      var k :| Mul(r, k) == x;
      var q := x / r;
      assert x == r * q + x % r;
      assert r * (k - q) == x % r;
      if k - q != 0 {
        MultipleAtLeast(r, k - q);
        assert false;
      }
    }
  }
}
