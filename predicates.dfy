/** The two tests on words: `is_alternating`, whether the t-letters of a word
    come one at a time with alternating signs, and `has_extremal_surface`,
    the balance test on the signed a-runs after odd and even t-letters. */
module WordTests {
  import opened Words

  // ---------------------------------------------------------------------
  // is_alternating

  /** No two t-letters stand next to each other: every t-run has length one. */
  predicate NoAdjacentT(w: seq<char>)
  {
    forall i :: 0 <= i < |w| - 1 ==> !(IsT(w[i]) && IsT(w[i + 1]))
  }

  /** Neighbouring letters differ. */
  predicate Alternates(s: seq<char>)
  {
    forall i :: 0 <= i < |s| - 1 ==> s[i] != s[i + 1]
  }

  /** An alternating word: t-exponent sum zero, single t-letters, and t and T
      taking turns. */
  predicate Alternating(g: seq<char>)
  {
    TExp(g) == 0 && NoAdjacentT(g) && Alternates(TShape(g))
  }

  /** The number of maximal t-runs of w: the pieces `re.split('[a]+', w)`
      leaves once the empty pieces at either end are dropped. */
  function RunCount(w: seq<char>): nat
  {
    if w == [] then 0
    else
      var c := w[|w| - 1];
      RunCount(w[..|w| - 1]) + (if IsT(c) && (|w| == 1 || !IsT(w[|w| - 2])) then 1 else 0)
  }

  /** There are at most as many t-runs as t-letters, and as many exactly when
      every run is a single letter. */
  lemma {:induction false} RunCountTLen(w: seq<char>)
    ensures RunCount(w) <= TLen(w)
    ensures RunCount(w) == TLen(w) <==> NoAdjacentT(w)
  {
    if w != [] {
      var u := w[..|w| - 1];
      var c := w[|w| - 1];
      RunCountTLen(u);
      assert w == u + [c];
      TConcat(u, [c]);
      assert [c][1..] == [];
      assert Count([c], 't') == (if c == 't' then 1 else 0);
      assert Count([c], 'T') == (if c == 'T' then 1 else 0);
      if IsT(c) && |w| > 1 && IsT(w[|w| - 2]) {
        assert !NoAdjacentT(w) by {
          assert IsT(w[|w| - 2]) && IsT(w[|w| - 1]);
        }
      } else {
        assert NoAdjacentT(w) <==> NoAdjacentT(u) by {
          assert forall i :: 0 <= i < |u| ==> u[i] == w[i];
          if |w| >= 2 {
            assert !(IsT(w[|w| - 2]) && IsT(w[|w| - 1]));
          }
        }
      }
    }
  }

  /** `is_alternating`: false when the t-exponent sum is not zero, true when
      there is no t-letter, and otherwise true exactly when every t-run is a
      single letter and no two neighbouring t-letters are equal. */
  method IsAlternating(g: seq<char>) returns (b: bool)
    requires IsWord(g)
    ensures b <==> Alternating(g)
    ensures TExp(g) != 0 ==> !b
    ensures TLen(g) == 0 ==> b
  {
    if TExp(g) != 0 {
      return false;
    }
    var gT := TLen(g);
    if gT == 0 {
      TLenZero(g);
      return true;
    }
    // count the t-runs
    var runs := 0;
    for i := 0 to |g|
      invariant runs == RunCount(g[..i])
    {
      assert g[..i + 1][..i] == g[..i];
      if IsT(g[i]) && (i == 0 || !IsT(g[i - 1])) {
        runs := runs + 1;
      }
    }
    assert g[..|g|] == g;
    RunCountTLen(g);
    if runs != gT {
      return false;
    }
    // every run is one letter, so the runs are the letters of the t-shape
    var tSub := TShape(g);
    for i := 1 to gT
      invariant forall j :: 0 <= j < i - 1 ==> tSub[j] != tSub[j + 1]
    {
      if tSub[i - 1] == tSub[i] {
        return false;
      }
    }
    return true;
  }

  // ---------------------------------------------------------------------
  // has_extremal_surface

  /** The sum of the signed lengths of the pieces ps[k] with 1 <= k < n and k
      of the given parity. */
  function ParitySum(ps: seq<seq<char>>, n: nat, parity: nat): int
    requires n <= |ps|
  {
    if n <= 1 then 0
    else ParitySum(ps, n - 1, parity) + (if (n - 1) % 2 == parity then SignedLen(ps[n - 1]) else 0)
  }

  /** One pass of the loop of `has_extremal_surface` adds piece k to the odd
      sum and piece k + 1 to the even sum, each signed by its first letter. */
  lemma ParityStep(ps: seq<seq<char>>, k: nat)
    requires k % 2 == 1 && k + 2 <= |ps| && ps[k] != [] && ps[k + 1] != []
    ensures ParitySum(ps, k + 2, 1) ==
              ParitySum(ps, k, 1) + (if ps[k][0] == 'a' then 1 else -1) * |ps[k]|
    ensures ParitySum(ps, k + 2, 0) ==
              ParitySum(ps, k, 0) + (if ps[k + 1][0] == 'a' then 1 else -1) * |ps[k + 1]|
  {
  }

  /** Where the loop of `has_extremal_surface` stops, k = n or k = n + 1 with
      k odd, the sums up to k are the sums the test compares. */
  lemma ParityEnd(ps: seq<seq<char>>, n: nat, k: nat)
    requires 1 <= n && n + 1 <= |ps| && k % 2 == 1 && (k == n || k == n + 1)
    ensures ParitySum(ps, k, 1) == ParitySum(ps, n, 1)
    ensures ParitySum(ps, k, 0) == ParitySum(ps, n + 1, 0)
  {
  }

  /** The pieces `has_extremal_surface` reads the first letter of: pieces 1 to
      the largest even number not above the t-length. */
  predicate ReadablePieces(g: seq<char>)
  {
    forall k :: 1 <= k <= TLen(g) - TLen(g) % 2 ==> Pieces(g)[k] != []
  }

  /** The relator exponents (r, s) the test weighs the sums with: (l, m) when
      the word starts with t and (m, l) otherwise, signs kept. */
  function Weights(g: seq<char>, m: int, l: int): (int, int)
  {
    if g != [] && g[0] == 't' then (l, m) else (m, l)
  }

  /** `has_extremal_surface`: false without t-letters; otherwise whether
      r*i == -s*j, where i sums the signed a-runs after the odd-numbered
      t-letters before the last and j those after the even-numbered ones. */
  method HasExtremalSurface(g: seq<char>, m: int, l: int) returns (b: bool)
    requires ReadablePieces(g)
    ensures TLen(g) == 0 ==> !b
    ensures TLen(g) > 0 ==>
      (b <==> Weights(g, m, l).0 * ParitySum(Pieces(g), TLen(g), 1)
               == -Weights(g, m, l).1 * ParitySum(Pieces(g), TLen(g) + 1, 0))
  {
    var gT := TLen(g);
    if gT == 0 {
      return false;
    }
    var aSub := Pieces(g);
    var k := 1;
    var iSum, jSum := 0, 0;
    while k < gT
      invariant 1 <= k <= gT + 1 && k % 2 == 1
      invariant iSum == ParitySum(aSub, k, 1) && jSum == ParitySum(aSub, k, 0)
    {
      ParityStep(aSub, k);
      var iSign := if aSub[k][0] == 'a' then 1 else -1;
      var jSign := if aSub[k + 1][0] == 'a' then 1 else -1;
      iSum := iSum + iSign * |aSub[k]|;
      jSum := jSum + jSign * |aSub[k + 1]|;
      k := k + 2;
    }
    ParityEnd(aSub, gT, k);
    var r, s;
    if g[0] == 't' {
      r, s := l, m;
    } else {
      r, s := m, l;
    }
    return r * iSum == -s * jSum;
  }
}
