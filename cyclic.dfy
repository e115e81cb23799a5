/** The cyclically reduced normal form of `cyclic_normal`: a representative
    of the conjugacy class of a word of BS(m,l). After the normal form, the
    word loses matching end letters, and then, while it has t-letters, its
    leading a-letters go to the end, it is tightened, and a leading t-letter
    together with the last t-letter and the a-run after it is traded for the
    a-letters the relator gives. */
module CyclicForms {
  import opened Wrappers
  import opened Words
  import opened NormalForms

  /** The result of `cyclic_normal`: a word, the exception the code raises, or
      a normal-form computation that needed more than its step budget. */
  datatype Outcome = Found(word: seq<char>) | Crash | OutOfFuel

  /** The result of one pass of the main loop: return the word, go round
      again with the word, or raise. */
  datatype Step = Stop(word: seq<char>) | Next(word: seq<char>) | StepCrash

  // ---------------------------------------------------------------------
  // Removing matching end letters

  /** How many first/last letter pairs are inverse to each other, from the
      outside in. */
  function StripDepth(w: seq<char>): (d: nat)
    ensures 2 * d <= |w|
    decreases |w|
  {
    if |w| >= 2 && w[0] == Swap(w[|w| - 1]) then 1 + StripDepth(w[1..|w| - 1]) else 0
  }

  /** A tight word over the alphabet whose end letters are inverse has at
      least three letters, so removing them leaves a nonempty tight word. */
  lemma StripInner(w: seq<char>)
    requires IsWord(w) && IsTight(w) && w != [] && w[0] == Swap(w[|w| - 1])
    ensures |w| >= 3 && IsWord(w[1..|w| - 1]) && IsTight(w[1..|w| - 1])
  {
    assert w[0] != Swap(w[0]);
  }

  /** The word with its matching end letters removed, pair by pair. */
  function Strip(w: seq<char>): (r: seq<char>)
    ensures |r| <= |w|
    decreases |w|
  {
    if |w| >= 2 && w[0] == Swap(w[|w| - 1]) then Strip(w[1..|w| - 1]) else w
  }

  lemma InnerSlice(w: seq<char>, d: nat)
    requires 2 * d + 2 <= |w|
    ensures w[1..|w| - 1][d..|w| - 2 - d] == w[d + 1..|w| - (d + 1)]
  {
    var u := w[1..|w| - 1];
    var x, y := u[d..|w| - 2 - d], w[d + 1..|w| - (d + 1)];
    assert |x| == |y|;
    forall i | 0 <= i < |x|
      ensures x[i] == y[i]
    {
      assert u[d + i] == w[d + 1 + i];
    }
  }

  /** What is left is the middle of the word: StripDepth(w) letters go from
      each end. */
  lemma {:induction false} StripSlice(w: seq<char>)
    ensures Strip(w) == w[StripDepth(w)..|w| - StripDepth(w)]
    decreases |w|
  {
    if |w| >= 2 && w[0] == Swap(w[|w| - 1]) {
      var u := w[1..|w| - 1];
      StripSlice(u);
      InnerSlice(w, StripDepth(u));
    }
  }

  /** Only pairs of mutually inverse letters are removed, and what is left is
      nonempty and tight, and does not start with the inverse of its last letter. */
  lemma {:induction false} StripShape(w: seq<char>)
    requires IsWord(w) && IsTight(w) && w != []
    ensures var r := Strip(w);
      r != [] && IsWord(r) && IsTight(r) && r[0] != Swap(r[|r| - 1])
    ensures forall i :: 0 <= i < StripDepth(w) ==> w[i] == Swap(w[|w| - 1 - i])
    decreases |w|
  {
    if w[0] == Swap(w[|w| - 1]) {
      StripInner(w);
      var u := w[1..|w| - 1];
      StripShape(u);
      var d := StripDepth(u);
      forall i | 1 <= i < d + 1
        ensures w[i] == Swap(w[|w| - 1 - i])
      {
        assert w[i] == u[i - 1] && w[|w| - 1 - i] == u[|u| - 1 - (i - 1)];
      }
    }
  }

  /** Removing inverse pairs keeps the t-exponent sum. */
  lemma {:induction false} StripTExp(w: seq<char>)
    requires IsWord(w) && IsTight(w) && w != []
    ensures TExp(Strip(w)) == TExp(w)
    decreases |w|
  {
    if w[0] == Swap(w[|w| - 1]) {
      StripInner(w);
      var u := w[1..|w| - 1];
      StripTExp(u);
      assert w == [w[0]] + u + [w[|w| - 1]];
      TConcat([w[0]] + u, [w[|w| - 1]]);
      TConcat([w[0]], u);
      SwapT(w[|w| - 1]);
      assert [w[0]] == [Swap(w[|w| - 1])];
      assert TExp(w) == TExp([w[0]]) + TExp(u) + TExp([w[|w| - 1]]);
      assert TExp([w[0]]) + TExp([w[|w| - 1]]) == 0;
      assert TExp(Strip(w)) == TExp(u);
    }
  }

  /** The first loop of `cyclic_normal`: drop the first and last letters while
      they are inverse to each other. */
  method StripEnds(w: seq<char>) returns (r: seq<char>)
    requires IsWord(w) && IsTight(w) && w != []
    ensures r == Strip(w)
  {
    r := w;
    while r[0] == Swap(r[|r| - 1])
      invariant r != [] && IsWord(r) && IsTight(r)
      invariant Strip(r) == Strip(w)
      decreases |r|
    {
      StripInner(r);
      r := r[1..|r| - 1];
    }
  }

  // ---------------------------------------------------------------------
  // Moving leading a-letters to the end

  /** The number of leading copies of c in w. */
  function LeadRun(w: seq<char>, c: char): (k: nat)
    ensures k <= |w|
  {
    if w == [] || w[0] != c then 0 else 1 + LeadRun(w[1..], c)
  }

  lemma {:induction false} LeadRunSpec(w: seq<char>, c: char)
    ensures forall i :: 0 <= i < LeadRun(w, c) ==> w[i] == c
    ensures LeadRun(w, c) < |w| ==> w[LeadRun(w, c)] != c
  {
    if w != [] && w[0] == c {
      LeadRunSpec(w[1..], c);
      assert forall i :: 1 <= i < |w| ==> w[i] == w[1..][i - 1];
    }
  }

  /** The word with its leading run of c moved to the end. */
  function Rotate(w: seq<char>, c: char): seq<char>
  {
    var k := LeadRun(w, c);
    w[k..] + w[..k]
  }

  /** Rotating keeps every letter count, so the word, its t-length and its
      t-exponent sum. */
  lemma RotateCounts(w: seq<char>, c: char)
    ensures forall x :: Count(Rotate(w, c), x) == Count(w, x)
    ensures TExp(Rotate(w, c)) == TExp(w) && TLen(Rotate(w, c)) == TLen(w)
    ensures IsWord(w) ==> IsWord(Rotate(w, c))
  {
    var k := LeadRun(w, c);
    assert w == w[..k] + w[k..];
    forall x
      ensures Count(Rotate(w, c), x) == Count(w, x)
    {
      CountConcat(w[k..], w[..k], x);
      CountConcat(w[..k], w[k..], x);
    }
    IsWordConcat(w[k..], w[..k]);
    IsWordConcat(w[..k], w[k..]);
  }

  /** A word with a t-letter is not all a-letters. */
  lemma LeadRunShort(w: seq<char>, c: char)
    requires TLen(w) > 0 && !IsT(c)
    ensures LeadRun(w, c) < |w|
  {
    LeadRunSpec(w, c);
    TLenZero(w);
  }

  /** One of the two rotation loops of `cyclic_normal`: while the first letter
      is c, move it to the end. */
  method RotateLeading(w: seq<char>, c: char) returns (r: seq<char>)
    requires LeadRun(w, c) < |w|
    ensures r == Rotate(w, c)
  {
    LeadRunSpec(w, c);
    var k := LeadRun(w, c);
    r := w;
    ghost var j := 0;
    while r[0] == c
      invariant 0 <= j <= k && r == w[j..] + w[..j]
      decreases k - j
    {
      assert w[..j + 1] == w[..j] + [c];
      r := r[1..] + [c];
      j := j + 1;
    }
  }

  /** The word a pass of the main loop works on: both rotations, then `tighten`. */
  function Prepared(w: seq<char>): seq<char>
  {
    Reduce(Rotate(Rotate(w, 'a'), 'A'))
  }

  lemma PreparedProps(w: seq<char>)
    ensures IsTight(Prepared(w)) && TExp(Prepared(w)) == TExp(w)
    ensures TLen(Prepared(w)) <= TLen(w)
    ensures IsWord(w) ==> IsWord(Prepared(w))
  {
    var u := Rotate(Rotate(w, 'a'), 'A');
    RotateCounts(w, 'a');
    RotateCounts(Rotate(w, 'a'), 'A');
    ReduceIsTight(u);
    ReduceTExp(u);
    ReduceTLen(u);
    if IsWord(w) {
      ReduceIsWord(u);
    }
  }

  // ---------------------------------------------------------------------
  // The last t-letter

  /** The position of the last t-letter of w, or -1 when there is none: where
      the match of the pattern `t[a]*$` (ignoring case) starts. */
  function LastT(w: seq<char>): (p: int)
    ensures -1 <= p < |w|
  {
    if w == [] then -1
    else if IsT(w[|w| - 1]) then |w| - 1
    else LastT(w[..|w| - 1])
  }

  lemma {:induction false} LastTSpec(w: seq<char>)
    ensures LastT(w) >= 0 ==> IsT(w[LastT(w)])
    ensures forall i :: LastT(w) < i < |w| ==> !IsT(w[i])
    ensures LastT(w) < 0 <==> TLen(w) == 0
  {
    TLenZero(w);
    if w != [] && !IsT(w[|w| - 1]) {
      LastTSpec(w[..|w| - 1]);
      TLenZero(w[..|w| - 1]);
    }
  }

  /** Appending a-letters does not move the last t-letter. */
  lemma {:induction false} LastTAppend(x: seq<char>, y: seq<char>)
    requires forall i :: 0 <= i < |y| ==> !IsT(y[i])
    ensures LastT(x + y) == LastT(x)
    decreases |y|
  {
    if y == [] {
      assert x + y == x;
    } else {
      assert (x + y)[..|x + y| - 1] == x + y[..|y| - 1];
      LastTAppend(x, y[..|y| - 1]);
    }
  }

  // ---------------------------------------------------------------------
  // One pass of the main loop

  /** One pass of the main loop on a word with t-letters. With p the last
      t-letter of the prepared word v and n the a-letters after it: stop when
      v starts with that letter or n is not a multiple of the modulus r of
      v's first letter; otherwise drop the first letter and v[p..] and append
      the n/r*s a-letters the relator trades them for. When n is zero no
      letter is appended. */
  function CycStep(w: seq<char>, m: int, l: int): Step
    requires m != 0 && l != 0
  {
    var v := Prepared(w);
    var p := LastT(v);
    if p < 0 then StepCrash
    else if v[0] == v[p] then Stop(v)
    else
      var r := Modulus(v[0], m, l);
      var s := Companion(v[0], m, l);
      var n := |v| - 1 - p;
      if Rem(n, r) != 0 then Stop(v)
      else if n == 0 then Next(v[1..p])
      else Next(v[1..p] + Repeat(MovedLetter(v[p + 1], m, l), MovedCount(n, r, s)))
  }

  /** The same pass as the code has it: when the last t-letter ends the word,
      the letter after it is read anyway, and the pass raises. */
  function CycStepAsWritten(w: seq<char>, m: int, l: int): Step
    requires m != 0 && l != 0
  {
    var v := Prepared(w);
    var p := LastT(v);
    if 0 <= p && v[0] != v[p] && Rem(|v| - 1 - p, Modulus(v[0], m, l)) == 0 && p == |v| - 1
    then StepCrash
    else CycStep(w, m, l)
  }

  /** Every pass that goes round again loses a t-letter: the main loop ends. */
  lemma StepShrinks(w: seq<char>, m: int, l: int)
    requires m != 0 && l != 0
    ensures CycStep(w, m, l).Next? ==> TLen(CycStep(w, m, l).word) < TLen(w)
  {
    var v := Prepared(w);
    var p := LastT(v);
    if CycStep(w, m, l).Next? {
      PreparedProps(w);
      LastTSpec(v);
      var next := CycStep(w, m, l).word;
      var moved := next[p - 1..];
      assert next == v[1..p] + moved;
      if |v| - 1 - p > 0 {
        MovedNoT(v[p + 1], m, l, |moved|);
      }
      assert v == v[..1] + v[1..p] + v[p..];
      TConcat(v[..1] + v[1..p], v[p..]);
      TConcat(v[..1], v[1..p]);
      TConcat(v[1..p], moved);
      TLenPositive(v[p..], 0);
    }
  }

  /** The a-letters a pass appends hold no t-letter. */
  lemma MovedNoT(c: char, m: int, l: int, n: nat)
    requires !IsT(c)
    ensures TLen(Repeat(MovedLetter(c, m, l), n)) == 0
    ensures TExp(Repeat(MovedLetter(c, m, l), n)) == 0
  {
    RepeatLetters(MovedLetter(c, m, l), n);
    TLenZero(Repeat(MovedLetter(c, m, l), n));
  }

  // ---------------------------------------------------------------------
  // The main loop and the whole function

  /** The main loop from the word w: run passes while the word has a
      t-letter; the word left without t-letters is tightened. */
  function CycLoop(w: seq<char>, m: int, l: int): Outcome
    requires m != 0 && l != 0
    decreases TLen(w)
  {
    if TLen(w) == 0 then Found(Reduce(w))
    else
      StepShrinks(w, m, l);
      match CycStep(w, m, l)
      case Stop(v) => Found(v)
      case StepCrash => Crash
      case Next(v) => CycLoop(v, m, l)
  }

  /** The main loop as the code has it: passes that raise on an empty a-run,
      and the word left without t-letters returned as it is. */
  function CycLoopAsWritten(w: seq<char>, m: int, l: int): Outcome
    requires m != 0 && l != 0
    decreases TLen(w)
  {
    if TLen(w) == 0 then Found(w)
    else
      StepShrinks(w, m, l);
      match CycStepAsWritten(w, m, l)
      case Stop(v) => Found(v)
      case StepCrash => Crash
      case Next(v) => CycLoopAsWritten(v, m, l)
  }

  /** `cyclic_normal(g, m, l)` with the two corrections: the normal form
      (OutOfFuel when its budget runs out), a crash on the empty normal form,
      the matching end letters removed, then the main loop. */
  function CN(g: seq<char>, m: int, l: int, fuel: nat): Outcome
    requires IsWord(g) && m != 0 && l != 0
  {
    NFIsWord(g, m, l, fuel);
    NFTight(g, m, l, fuel);
    match NF(g, m, l, fuel)
    case None => OutOfFuel
    case Some(w) => if w == [] then Crash else CycLoop(Strip(w), m, l)
  }

  /** `cyclic_normal(g, m, l)` as written. */
  function CNAsWritten(g: seq<char>, m: int, l: int, fuel: nat): Outcome
    requires IsWord(g) && m != 0 && l != 0
  {
    NFIsWord(g, m, l, fuel);
    NFTight(g, m, l, fuel);
    match NF(g, m, l, fuel)
    case None => OutOfFuel
    case Some(w) => if w == [] then Crash else CycLoopAsWritten(Strip(w), m, l)
  }

  /** The remainder the code takes with `%`. */
  lemma RemIsPercent(n: nat, r: nat)
    requires r > 0
    ensures Rem(n, r) == n % r
  {
    RemIsMod(n, r);
  }

  /** The first lines of the main loop: move the leading a-letters, then the
      leading A-letters, to the end, and tighten. */
  method Prepare(w: seq<char>) returns (v: seq<char>)
    requires TLen(w) > 0
    ensures v == Prepared(w)
  {
    LeadRunShort(w, 'a');
    v := RotateLeading(w, 'a');
    RotateCounts(w, 'a');
    LeadRunShort(v, 'A');
    v := RotateLeading(v, 'A');
    v := Tighten(v);
  }

  /** The body of the main loop of `cyclic_normal` on a word with t-letters:
      rotate, tighten, find the last t-letter and either return or build the
      next word. */
  method Pass(w: seq<char>, m: int, l: int, swapSign: bool) returns (step: Step)
    requires m != 0 && l != 0 && TLen(w) > 0 && swapSign == (m * l < 0)
    ensures step == CycStep(w, m, l)
  {
    SwapSign(m, l);
    var gCn := Prepare(w);
    var p := LastT(gCn);
    if p < 0 {
      return StepCrash;
    }
    if gCn[0] == gCn[p] {
      return Stop(gCn);
    }
    var r, s;
    if gCn[0] == 't' {
      r, s := Abs(l), Abs(m);
    } else {
      r, s := Abs(m), Abs(l);
    }
    var aLen := |gCn| - 1 - p;
    RemIsPercent(aLen, r);
    if aLen % r == 0 {
      var q := aLen / r;
      var moved := [];
      if aLen > 0 {
        MovedCountIsProduct(aLen, r, s);
        var c := if swapSign then Swap(gCn[p + 1]) else gCn[p + 1];
        moved := Repeat(c, q * s);
      }
      return Next(gCn[1..p] + moved);
    } else {
      return Stop(gCn);
    }
  }

  /** `cyclic_normal`, with the empty a-run appending nothing and the final
      word tightened. */
  method CyclicNormal(g: seq<char>, m: int, l: int, fuel: nat) returns (res: Outcome)
    requires IsWord(g) && m != 0 && l != 0
    ensures res == CN(g, m, l, fuel)
  {
    var nf := NormalForm(g, m, l, fuel);
    if nf.None? {
      return OutOfFuel;
    }
    var gCn := nf.value;
    if gCn == [] {
      return Crash;
    }
    NFIsWord(g, m, l, fuel);
    NFTight(g, m, l, fuel);
    var swapSign := m * l < 0;
    gCn := StripEnds(gCn);
    ghost var start := gCn;
    while TLen(gCn) > 0
      invariant CycLoop(gCn, m, l) == CycLoop(start, m, l)
      decreases TLen(gCn)
    {
      StepShrinks(gCn, m, l);
      var step := Pass(gCn, m, l, swapSign);
      match step
      case StepCrash => return Crash;
      case Stop(v) => return Found(v);
      case Next(v) => gCn := v;
    }
    var res' := Tighten(gCn);
    return Found(res');
  }

  // ---------------------------------------------------------------------
  // Properties

  /** A pass that stops returns the prepared word: tight, with the t-exponent
      sum of the word it started from. */
  lemma StepStop(w: seq<char>, m: int, l: int)
    requires m != 0 && l != 0 && CycStep(w, m, l).Stop?
    ensures IsTight(CycStep(w, m, l).word) && TExp(CycStep(w, m, l).word) == TExp(w)
  {
    PreparedProps(w);
  }

  /** The corrected pass raises only when no t-letter is left once the word
      is prepared: an empty a-run after the last t-letter does not raise. */
  lemma StepCrashIff(w: seq<char>, m: int, l: int)
    requires m != 0 && l != 0
    ensures CycStep(w, m, l).StepCrash? <==> TLen(Prepared(w)) == 0
  {
    LastTSpec(Prepared(w));
  }

  /** The pass as written raises, in addition, whenever the prepared word
      ends with a t-letter other than its first letter. */
  lemma StepCrashIffAsWritten(w: seq<char>, m: int, l: int)
    requires m != 0 && l != 0
    ensures var v := Prepared(w);
      CycStepAsWritten(w, m, l).StepCrash? <==>
        TLen(v) == 0 || (v != [] && IsT(v[|v| - 1]) && v[0] != v[|v| - 1])
  {
    var v := Prepared(w);
    LastTSpec(v);
    if v != [] && IsT(v[|v| - 1]) {
      assert LastT(v) == |v| - 1;
      assert Rem(0, Modulus(v[0], m, l)) == 0;
    }
  }

  // ---------------------------------------------------------------------
  // The states of the main loop

  /** The words the main loop works on: words over the alphabet, in normal
      form, tight up to their last t-letter (the a-letters a pass appends
      after it may still cancel against those before them). */
  predicate LoopState(w: seq<char>, m: int, l: int)
  {
    IsWord(w) && IsTight(w[..LastT(w) + 1]) && InNormalForm(w, m, l)
  }

  /** A cyclically reduced word: its first letter is not the inverse of its
      last one. */
  predicate CyclicallyReduced(h: seq<char>)
  {
    h == [] || h[0] != Swap(h[|h| - 1])
  }

  /** The two rotations of a loop state with t-letters move exactly the
      a-letters in front of its first t-letter. */
  lemma RotationsFirstT(w: seq<char>, m: int, l: int) returns (j: nat)
    requires LoopState(w, m, l) && TLen(w) > 0
    ensures j <= LastT(w) && IsT(w[j]) && (forall q :: 0 <= q < j ==> !IsT(w[q]))
    ensures Rotate(Rotate(w, 'a'), 'A') == w[j..] + w[..j]
  {
    LastTSpec(w);
    var p := LastT(w);
    var x := w[..p + 1];
    LeadRunSpec(w, 'a');
    var i := LeadRun(w, 'a');
    assert i <= p;
    if i > 0 {
      assert w[i] != 'A' by {
        assert x[i - 1] != Swap(x[i]);
      }
      var w1 := Rotate(w, 'a');
      assert w1 == w[i..] + w[..i] && w1[0] == w[i];
      assert Rotate(w1, 'A') == w1;
      j := i;
    } else {
      assert Rotate(w, 'a') == w;
      LeadRunSpec(w, 'A');
      j := LeadRun(w, 'A');
      assert j <= p;
      if j > 0 {
        assert w[j] != 'a' by {
          assert x[j - 1] != Swap(x[j]);
        }
      }
    }
  }

  /** A tight word in normal form is a loop state. */
  lemma TightLoopState(r: seq<char>, m: int, l: int)
    requires IsWord(r) && IsTight(r) && InNormalForm(r, m, l)
    ensures LoopState(r, m, l)
  {
    var n := LastT(r) + 1;
    TightSlice(r, 0, n);
    assert r[0..n] == r[..n];
  }

  /** A loop state followed by a-letters is a loop state: the last t-letter
      and the tight part in front of it stay where they are. */
  lemma LoopStateAppend(x: seq<char>, y: seq<char>, m: int, l: int)
    requires LoopState(x, m, l) && IsWord(y)
    requires forall i :: 0 <= i < |y| ==> !IsT(y[i])
    ensures LoopState(x + y, m, l)
  {
    var r := x + y;
    LastTAppend(x, y);
    var q := LastT(x);
    assert r[..q + 1] == x[..q + 1];
    IsWordConcat(x, y);
    assert r[..|x|] == x;
    forall i | |x| <= i < |r|
      ensures !IsT(r[i])
    {
      assert r[i] == y[i - |x|];
    }
    InNormalFormTail(r, |x|, m, l);
  }

  /** Tightening a piece in normal form that starts and ends with a t-letter,
      followed by a-letters, gives a word in normal form that starts with
      that t-letter. */
  lemma TightenFromT(z: seq<char>, rest: seq<char>, m: int, l: int)
    requires IsTight(z) && z != [] && IsT(z[0]) && IsT(z[|z| - 1]) && InNormalForm(z, m, l)
    requires forall i :: 0 <= i < |rest| ==> !IsT(rest[i])
    ensures var v := Reduce(z + rest); v != [] && v[0] == z[0] && InNormalForm(v, m, l)
  {
    ReduceAfterT(z, rest);
    var v := Reduce(z + rest);
    assert v[0] == v[..|z|][0];
    InNormalFormTail(v, |z|, m, l);
  }

  /** What lies after the last t-letter and before the first one holds no
      t-letter. */
  lemma RestWithoutT(w: seq<char>, j: nat, p: nat)
    requires j <= p < |w|
    requires forall q :: 0 <= q < j ==> !IsT(w[q])
    requires forall q :: p < q < |w| ==> !IsT(w[q])
    ensures var rest := w[p + 1..] + w[..j]; forall i :: 0 <= i < |rest| ==> !IsT(rest[i])
  {
    var rest := w[p + 1..] + w[..j];
    forall i | 0 <= i < |rest|
      ensures !IsT(rest[i])
    {
      if i < |w| - p - 1 {
        assert rest[i] == w[p + 1 + i];
      } else {
        assert rest[i] == w[i - (|w| - p - 1)];
      }
    }
  }

  /** Cut between a first t-letter at j and a last one at p, the rotated
      word is a tight piece running from t-letter to t-letter, then
      a-letters only. */
  lemma SplitAt(w: seq<char>, j: nat, p: nat)
    requires j <= p < |w| && IsT(w[j]) && IsT(w[p]) && IsTight(w[..p + 1])
    requires forall q :: 0 <= q < j ==> !IsT(w[q])
    requires forall q :: p < q < |w| ==> !IsT(w[q])
    ensures var z, rest := w[j..p + 1], w[p + 1..] + w[..j];
      w[j..] + w[..j] == z + rest && IsTight(z) && z != [] && IsT(z[0]) && IsT(z[|z| - 1]) &&
      forall i :: 0 <= i < |rest| ==> !IsT(rest[i])
  {
    var z, rest := w[j..p + 1], w[p + 1..] + w[..j];
    assert w[j..] + w[..j] == z + rest;
    TightSlice(w[..p + 1], j, p + 1);
    assert w[..p + 1][j..p + 1] == z;
    RestWithoutT(w, j, p);
  }

  /** A loop state with t-letters, rotated, is the piece from its first to
      its last t-letter followed by a-letters only. */
  lemma RotatedPieces(w: seq<char>, m: int, l: int) returns (z: seq<char>, rest: seq<char>)
    requires LoopState(w, m, l) && TLen(w) > 0
    ensures Rotate(Rotate(w, 'a'), 'A') == z + rest
    ensures IsTight(z) && z != [] && IsT(z[0]) && IsT(z[|z| - 1]) && InNormalForm(z, m, l)
    ensures forall i :: 0 <= i < |rest| ==> !IsT(rest[i])
  {
    var j := RotationsFirstT(w, m, l);
    var p := LastT(w);
    assert IsT(w[p]) && forall i :: p < i < |w| ==> !IsT(w[i]) by {
      LastTSpec(w);
    }
    z, rest := w[j..p + 1], w[p + 1..] + w[..j];
    SplitAt(w, j, p);
    InNormalFormSlice(w, j, p + 1, m, l);
  }

  /** Preparing a loop state with t-letters gives a word in normal form that
      starts with a t-letter: tightening only cancels a-letters after the
      last t-letter. */
  lemma PreparedState(w: seq<char>, m: int, l: int)
    requires m != 0 && l != 0 && LoopState(w, m, l) && TLen(w) > 0
    ensures Prepared(w) != [] && IsT(Prepared(w)[0]) && InNormalForm(Prepared(w), m, l)
  {
    var z, rest := RotatedPieces(w, m, l);
    TightenFromT(z, rest, m, l);
  }

  /** The word a continuing pass leaves behind is a loop state again. */
  lemma NextState(w: seq<char>, m: int, l: int)
    requires m != 0 && l != 0 && CycStep(w, m, l).Next?
    requires IsWord(w) && InNormalForm(Prepared(w), m, l)
    ensures LoopState(CycStep(w, m, l).word, m, l)
  {
    var v := Prepared(w);
    var p := LastT(v);
    PreparedProps(w);
    LastTSpec(v);
    var next := CycStep(w, m, l).word;
    var mid, moved := v[1..p], next[p - 1..];
    assert next == mid + moved;
    if |v| - 1 - p > 0 {
      var c := MovedLetter(v[p + 1], m, l);
      MovedNoT(v[p + 1], m, l, |moved|);
      RepeatLetters(c, |moved|);
      assert IsA(c);
    }
    assert IsWord(mid);
    TightSlice(v, 1, p);
    InNormalFormSlice(v, 1, p, m, l);
    TightLoopState(mid, m, l);
    LoopStateAppend(mid, moved, m, l);
  }

  /** From a loop state, a pass that goes on removes the leading t-letter
      and its inverse at the last t-letter: the t-exponent sum stays, the
      t-length drops by two, and the word is a loop state again. */
  lemma StepNext(w: seq<char>, m: int, l: int)
    requires m != 0 && l != 0 && LoopState(w, m, l) && CycStep(w, m, l).Next?
    ensures TExp(CycStep(w, m, l).word) == TExp(w)
    ensures TLen(CycStep(w, m, l).word) + 2 <= TLen(w)
    ensures LoopState(CycStep(w, m, l).word, m, l)
  {
    PreparedProps(w);
    LastTSpec(Prepared(w));
    PreparedState(w, m, l);
    PassFromT(w, m, l);
    NextState(w, m, l);
  }

  /** A word without t-letters, tightened, is a cyclically reduced normal
      form with the same t-exponent sum. */
  lemma ReducedWithoutT(w: seq<char>, m: int, l: int)
    requires IsWord(w) && TLen(w) == 0
    ensures var h := Reduce(w);
      TExp(h) == TExp(w) && CyclicallyReduced(h) && InNormalForm(h, m, l)
  {
    var h := Reduce(w);
    ReduceTExp(w);
    ReduceTLen(w);
    ReduceIsTight(w);
    ReduceIsWord(w);
    TLenZero(h);
    TightPower(h);
    NoTInNormalForm(h, m, l);
  }

  /** A pass that stops on a loop state returns a cyclically reduced normal
      form with the t-exponent sum of the state. */
  lemma StopState(w: seq<char>, m: int, l: int)
    requires m != 0 && l != 0 && LoopState(w, m, l) && CycStep(w, m, l).Stop?
    ensures var h := CycStep(w, m, l).word;
      TExp(h) == TExp(w) && CyclicallyReduced(h) && InNormalForm(h, m, l)
  {
    var v := Prepared(w);
    PreparedProps(w);
    LastTSpec(v);
    StepStop(w, m, l);
    PreparedState(w, m, l);
    if IsT(v[|v| - 1]) {
      assert LastT(v) == |v| - 1;
      assert Rem(0, Modulus(v[0], m, l)) == 0;
    }
  }

  /** Every word the corrected main loop returns from a loop state is a
      cyclically reduced normal form with the t-exponent sum of the state. */
  lemma {:induction false} CycLoopState(w: seq<char>, m: int, l: int)
    requires m != 0 && l != 0 && LoopState(w, m, l)
    ensures CycLoop(w, m, l).Found? ==>
      var h := CycLoop(w, m, l).word;
      TExp(h) == TExp(w) && CyclicallyReduced(h) && InNormalForm(h, m, l)
    decreases TLen(w)
  {
    if TLen(w) == 0 {
      ReducedWithoutT(w, m, l);
    } else {
      StepShrinks(w, m, l);
      match CycStep(w, m, l)
      case Stop(v) => StopState(w, m, l);
      case StepCrash =>
      case Next(v) =>
        StepNext(w, m, l);
        CycLoopState(v, m, l);
    }
  }

  /** Removing end letters keeps a word in normal form. */
  lemma {:induction false} StripInNormalForm(w: seq<char>, m: int, l: int)
    requires InNormalForm(w, m, l)
    ensures InNormalForm(Strip(w), m, l)
    decreases |w|
  {
    if |w| >= 2 && w[0] == Swap(w[|w| - 1]) {
      InNormalFormSlice(w, 1, |w| - 1, m, l);
      StripInNormalForm(w[1..|w| - 1], m, l);
    }
  }

  /** Removing the matching end letters of a tight word in normal form gives
      a loop state. */
  lemma StripState(w: seq<char>, m: int, l: int)
    requires IsWord(w) && IsTight(w) && w != [] && InNormalForm(w, m, l)
    ensures LoopState(Strip(w), m, l)
  {
    var r := Strip(w);
    assert IsWord(r) && IsTight(r) by {
      StripShape(w);
    }
    StripInNormalForm(w, m, l);
    TightLoopState(r, m, l);
  }

  /** `cyclic_normal`, corrected, returns a cyclically reduced word in normal
      form with the t-exponent sum of its input. */
  lemma CNCyclicallyReduced(g: seq<char>, m: int, l: int, fuel: nat)
    requires IsWord(g) && m != 0 && l != 0
    ensures CN(g, m, l, fuel).Found? ==>
      var h := CN(g, m, l, fuel).word;
      TExp(h) == TExp(g) && CyclicallyReduced(h) && InNormalForm(h, m, l)
  {
    NFIsWord(g, m, l, fuel);
    NFTight(g, m, l, fuel);
    NFTExp(g, m, l, fuel);
    NFInNormalForm(g, m, l, fuel);
    if NF(g, m, l, fuel).Some? && NF(g, m, l, fuel).value != [] {
      var w := NF(g, m, l, fuel).value;
      StripState(w, m, l);
      StripTExp(w);
      CycLoopState(Strip(w), m, l);
    }
  }

  /** When the prepared word starts with a t-letter, a pass that goes on
      removes that letter and its inverse at the last t-letter: the t-exponent
      sum stays and the t-length drops by at least two. */
  lemma PassFromT(w: seq<char>, m: int, l: int)
    requires m != 0 && l != 0 && CycStep(w, m, l).Next? && IsT(Prepared(w)[0])
    ensures TExp(CycStep(w, m, l).word) == TExp(w)
    ensures TLen(CycStep(w, m, l).word) + 2 <= TLen(w)
  {
    var v := Prepared(w);
    var p := LastT(v);
    PreparedProps(w);
    LastTSpec(v);
    var next := CycStep(w, m, l).word;
    var moved := next[p - 1..];
    assert next == v[1..p] + moved;
    if |v| - 1 - p > 0 {
      MovedNoT(v[p + 1], m, l, |moved|);
    }
    TConcat(v[1..p], moved);
    DropEnds(v, p);
    // two different t-letters are inverse to each other
    assert v[p] == Swap(v[0]);
    SwapT(v[0]);
  }

  /** The t-letters of a word whose letters after position p are a-letters,
      counted as its first letter, the middle and the letter at p. */
  lemma DropEnds(v: seq<char>, p: int)
    requires 0 < p < |v| && forall i :: p < i < |v| ==> !IsT(v[i])
    ensures TExp(v) == TExp([v[0]]) + TExp(v[1..p]) + TExp([v[p]])
    ensures TLen(v) == TLen([v[0]]) + TLen(v[1..p]) + TLen([v[p]])
  {
    TLenZero(v[p + 1..]);
    assert v == [v[0]] + v[1..p] + [v[p]] + v[p + 1..];
    TConcat([v[0]] + v[1..p] + [v[p]], v[p + 1..]);
    TConcat([v[0]] + v[1..p], [v[p]]);
    TConcat([v[0]], v[1..p]);
  }

  /** Every word the corrected loop returns is tight. */
  lemma {:induction false} CycLoopTight(w: seq<char>, m: int, l: int)
    requires m != 0 && l != 0
    ensures CycLoop(w, m, l).Found? ==> IsTight(CycLoop(w, m, l).word)
    decreases TLen(w)
  {
    if TLen(w) == 0 {
      ReduceIsTight(w);
    } else {
      StepShrinks(w, m, l);
      match CycStep(w, m, l)
      case Stop(v) => StepStop(w, m, l);
      case StepCrash =>
      case Next(v) => CycLoopTight(v, m, l);
    }
  }

  /** The corrections change nothing but the two defects: where the code
      returns a word, the corrected loop returns that word tightened, and
      where the corrected loop raises, so does the code. */
  lemma {:induction false} CycLoopAgrees(w: seq<char>, m: int, l: int)
    requires m != 0 && l != 0
    ensures CycLoopAsWritten(w, m, l).Found? ==>
      CycLoop(w, m, l) == Found(Reduce(CycLoopAsWritten(w, m, l).word))
    ensures CycLoop(w, m, l) == Crash ==> CycLoopAsWritten(w, m, l) == Crash
    decreases TLen(w)
  {
    if TLen(w) > 0 {
      StepShrinks(w, m, l);
      match CycStep(w, m, l)
      case Stop(v) =>
        StepStop(w, m, l);
        ReduceOfTight(v);
      case StepCrash =>
      case Next(v) =>
        CycLoopAgrees(v, m, l);
    }
  }

  /** Every word `cyclic_normal` returns, once corrected, is tight. */
  lemma CNTight(g: seq<char>, m: int, l: int, fuel: nat)
    requires IsWord(g) && m != 0 && l != 0
    ensures CN(g, m, l, fuel).Found? ==> IsTight(CN(g, m, l, fuel).word)
  {
    NFIsWord(g, m, l, fuel);
    NFTight(g, m, l, fuel);
    if NF(g, m, l, fuel).Some? && NF(g, m, l, fuel).value != [] {
      CycLoopTight(Strip(NF(g, m, l, fuel).value), m, l);
    }
  }

  /** The corrected function agrees with the code wherever the code returns
      a word, up to tightening, and raises only where the code does. */
  lemma CNAgrees(g: seq<char>, m: int, l: int, fuel: nat)
    requires IsWord(g) && m != 0 && l != 0
    ensures CNAsWritten(g, m, l, fuel).Found? ==>
      CN(g, m, l, fuel) == Found(Reduce(CNAsWritten(g, m, l, fuel).word))
    ensures CN(g, m, l, fuel) == Crash ==> CNAsWritten(g, m, l, fuel) == Crash
  {
    NFIsWord(g, m, l, fuel);
    NFTight(g, m, l, fuel);
    if NF(g, m, l, fuel).Some? && NF(g, m, l, fuel).value != [] {
      CycLoopAgrees(Strip(NF(g, m, l, fuel).value), m, l);
    }
  }

  /** A tight word that starts with neither a nor A is its own prepared word. */
  lemma PreparedFixed(w: seq<char>)
    requires IsTight(w) && w != [] && w[0] != 'a' && w[0] != 'A'
    ensures Prepared(w) == w
  {
    assert Rotate(w, 'a') == w[0..] + w[..0] == w;
    assert Rotate(w, 'A') == w;
    ReduceOfTight(w);
  }

  lemma ExampleOneNF()
    ensures NF("tATaa", 2, 2, 0) == Some("tATaa")
  {
    var g := "tATaa";
    assert IsTight(g) by {
      assert g[0] != Swap(g[1]) && g[1] != Swap(g[2]) && g[2] != Swap(g[3]) && g[3] != Swap(g[4]);
    }
    assert InNormalForm(g, 2, 2) by {
      assert g[..0] == [] && g[..2] == "tA";
      assert ARun("tA") == 1 by {
        assert "tA"[..1] == "t";
      }
    }
    NFFixpoint(g, 2, 2, 0);
  }

  lemma ExampleOneStep()
    ensures CycStepAsWritten("tATaa", 2, 2) == Next("Aaa")
  {
    var g := "tATaa";
    assert IsTight(g) by {
      assert g[0] != Swap(g[1]) && g[1] != Swap(g[2]) && g[2] != Swap(g[3]) && g[3] != Swap(g[4]);
    }
    PreparedFixed(g);
    assert LastT(g) == 2 by {
      assert g[..4] == "tATa" && "tATa"[..3] == "tAT";
    }
    assert Rem(2, 2) == 0 && MovedCount(2, 2, 2) == 2;
    assert Repeat('a', 2) == "aa";
    assert g[1..2] + "aa" == "Aaa";
  }

  lemma ExampleOneLoop()
    ensures CycLoopAsWritten("tATaa", 2, 2) == Found("Aaa")
    ensures CycLoop("tATaa", 2, 2) == Found("a")
  {
    ExampleOneStep();
    TLenPositive("tATaa", 0);
    assert TLen("Aaa") == 0 by {
      TLenZero("Aaa");
    }
    assert Reduce("Aaa") == "a" by {
      assert "Aaa"[..2] == "Aa" && "Aa"[..1] == "A" && "A"[..0] == [];
    }
  }

  /** "tATaa" is its own normal form in BS(2,2), and its main loop ends on
      the word "Aaa", which the code returns although aA cancels. */
  lemma FindingNotTight()
    ensures CNAsWritten("tATaa", 2, 2, 0) == Found("Aaa") && !IsTight("Aaa")
    ensures CN("tATaa", 2, 2, 0) == Found("a")
  {
    ExampleOneNF();
    ExampleOneLoop();
    assert Strip("tATaa") == "tATaa";
    assert "Aaa"[0] == Swap("Aaa"[1]);
  }

  lemma ExampleTwoNF()
    ensures NF("tAAtaTTaaa", 2, 3, 0) == Some("tAAtaTTaaa")
  {
    var g := "tAAtaTTaaa";
    assert IsTight(g) by {
      assert g[0] != Swap(g[1]) && g[1] != Swap(g[2]) && g[2] != Swap(g[3]);
      assert g[3] != Swap(g[4]) && g[4] != Swap(g[5]) && g[5] != Swap(g[6]);
      assert g[6] != Swap(g[7]) && g[7] != Swap(g[8]) && g[8] != Swap(g[9]);
    }
    assert InNormalForm(g, 2, 3) by {
      assert g[..0] == [] && g[..3] == "tAA" && g[..5] == "tAAta" && g[..6] == "tAAtaT";
      assert ARun("tAA") == 2 by {
        assert "tAA"[..2] == "tA" && "tA"[..1] == "t";
      }
      assert ARun("tAAta") == 1 by {
        assert "tAAta"[..4] == "tAAt";
      }
    }
    NFFixpoint(g, 2, 3, 0);
  }

  lemma ExampleTwoFirstStep()
    ensures CycStepAsWritten("tAAtaTTaaa", 2, 3) == Next("AAtaTaa")
  {
    var g := "tAAtaTTaaa";
    assert IsTight(g) by {
      assert g[0] != Swap(g[1]) && g[1] != Swap(g[2]) && g[2] != Swap(g[3]);
      assert g[3] != Swap(g[4]) && g[4] != Swap(g[5]) && g[5] != Swap(g[6]);
      assert g[6] != Swap(g[7]) && g[7] != Swap(g[8]) && g[8] != Swap(g[9]);
    }
    PreparedFixed(g);
    assert LastT(g) == 6 by {
      assert g[..9] == "tAAtaTTaa" && "tAAtaTTaa"[..8] == "tAAtaTTa" && "tAAtaTTa"[..7] == "tAAtaTT";
    }
    assert Rem(3, 3) == 0 && MovedCount(3, 3, 2) == 2;
    assert Repeat('a', 2) == "aa";
    assert g[1..6] + "aa" == "AAtaTaa";
  }

  lemma ExampleTwoPrepared()
    ensures Prepared("AAtaTaa") == "taT"
  {
    var h := "AAtaTaa";
    assert LeadRun(h, 'a') == 0 && Rotate(h, 'a') == h;
    assert LeadRun(h, 'A') == 2 by {
      assert h[1..][1..] == "taTaa";
    }
    assert Rotate(h, 'A') == "taTaaAA";
    ReduceOfTight("taTa");
    ReduceOfTight("taTaa");
    assert Reduce("taTaaA") == "taTa" by {
      assert "taTaaA"[..5] == "taTaa";
    }
    assert Reduce("taTaaAA") == "taT" by {
      assert "taTaaAA"[..6] == "taTaaA";
    }
  }

  lemma ExampleTwoSecondStep()
    ensures CycStepAsWritten("AAtaTaa", 2, 3) == StepCrash
    ensures CycStep("AAtaTaa", 2, 3) == Next("a")
  {
    ExampleTwoPrepared();
    assert LastT("taT") == 2;
    assert Rem(0, 3) == 0;
  }

  lemma ExampleTwoTail()
    ensures CycLoopAsWritten("AAtaTaa", 2, 3) == Crash
    ensures CycLoop("AAtaTaa", 2, 3) == Found("a")
  {
    ExampleTwoSecondStep();
    assert TLen("AAtaTaa") == 2 && TLen("a") == 0;
    assert Reduce("a") == Reduce([]) + "a";
  }

  lemma ExampleTwoLoop()
    ensures CycLoopAsWritten("tAAtaTTaaa", 2, 3) == Crash
    ensures CycLoop("tAAtaTTaaa", 2, 3) == Found("a")
  {
    ExampleTwoFirstStep();
    ExampleTwoTail();
    assert TLen("tAAtaTTaaa") == 4;
  }

  /** "tAAtaTTaaa" is its own normal form in BS(2,3); the second pass of the
      main loop meets "taT", whose last t-letter has no a-letter after it,
      and the code reads one there. */
  lemma FindingCrash()
    ensures CNAsWritten("tAAtaTTaaa", 2, 3, 0) == Crash
    ensures CN("tAAtaTTaaa", 2, 3, 0) == Found("a")
  {
    ExampleTwoNF();
    ExampleTwoLoop();
    assert Strip("tAAtaTTaaa") == "tAAtaTTaaa";
  }
}
