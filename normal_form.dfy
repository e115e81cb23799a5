/** The normal form of an element of BS(m,l):
      a^i1 t^e1 a^i2 t^e2 ... a^ik t^ek a^j
    where an a-run standing before `t` is shorter than |l| and one standing
    before `T` is shorter than |m|. It is reached by moving the excess of a
    too-long a-run past the following t-letter with the relator
    t a^m t^-1 = a^l, and starting over on the result. */
module NormalForms {
  import opened Wrappers
  import opened Words

  /** An a-run together with the t-run that follows it. The word splits into
      these pairs in order; only the last pair may have an empty t-run. */
  datatype Block = Block(a: seq<char>, t: seq<char>)

  /** Length of the longest prefix of w without t-letters. */
  function APrefix(w: seq<char>): (k: nat)
    ensures k <= |w|
  {
    if w == [] || IsT(w[0]) then 0 else 1 + APrefix(w[1..])
  }

  lemma {:induction false} APrefixSpec(w: seq<char>)
    ensures forall i :: 0 <= i < APrefix(w) ==> !IsT(w[i])
    ensures APrefix(w) < |w| ==> IsT(w[APrefix(w)])
  {
    if w != [] && !IsT(w[0]) {
      APrefixSpec(w[1..]);
      assert forall i :: 1 <= i < |w| ==> w[i] == w[1..][i - 1];
    }
  }

  /** Length of the longest prefix of w made of t-letters. */
  function TPrefix(w: seq<char>): (k: nat)
    ensures k <= |w|
  {
    if w == [] || !IsT(w[0]) then 0 else 1 + TPrefix(w[1..])
  }

  lemma {:induction false} TPrefixSpec(w: seq<char>)
    ensures forall i :: 0 <= i < TPrefix(w) ==> IsT(w[i])
    ensures TPrefix(w) < |w| ==> !IsT(w[TPrefix(w)])
  {
    if w != [] && IsT(w[0]) {
      TPrefixSpec(w[1..]);
      assert forall i :: 1 <= i < |w| ==> w[i] == w[1..][i - 1];
    }
  }

  /** The split of a word into (a-run, t-run) pairs that `normal_form` walks
      through: the pairs a_sub[i], t_sub[i + t_shift] of its two splits. */
  function Blocks(w: seq<char>): seq<Block>
    decreases |w|
  {
    if w == [] then []
    else
      var i := APrefix(w);
      var j := i + TPrefix(w[i..]);
      [Block(w[..i], w[i..j])] + Blocks(w[j..])
  }

  /** The word a list of blocks spells. */
  function Flatten(bs: seq<Block>): seq<char>
  {
    if bs == [] then [] else bs[0].a + bs[0].t + Flatten(bs[1..])
  }

  lemma {:induction false} FlattenConcat(xs: seq<Block>, ys: seq<Block>)
    ensures Flatten(xs + ys) == Flatten(xs) + Flatten(ys)
    decreases |xs|
  {
    if xs == [] {
      assert xs + ys == ys;
    } else {
      assert (xs + ys)[1..] == xs[1..] + ys;
      FlattenConcat(xs[1..], ys);
    }
  }

  lemma FlattenSnoc(bs: seq<Block>, i: int)
    requires 0 <= i < |bs|
    ensures Flatten(bs[..i + 1]) == Flatten(bs[..i]) + bs[i].a + bs[i].t
  {
    assert bs[..i + 1] == bs[..i] + [bs[i]];
    FlattenConcat(bs[..i], [bs[i]]);
    assert [bs[i]][1..] == [];
  }

  /** The first block of a nonempty word and the rest of the word after it. */
  lemma BlocksCons(w: seq<char>) returns (i: nat, j: nat)
    requires w != []
    ensures i == APrefix(w) && j == i + TPrefix(w[i..])
    ensures 0 < j <= |w|
    ensures Blocks(w) == [Block(w[..i], w[i..j])] + Blocks(w[j..])
    ensures w == w[..i] + w[i..j] + w[j..]
    ensures IsBlock(Block(w[..i], w[i..j]))
    ensures forall p :: 0 <= p < i ==> !IsT(w[p])
    ensures forall p :: i <= p < j ==> IsT(w[p])
    ensures w[i..j] == [] ==> j == |w|
  {
    i := APrefix(w);
    var u := w[i..];
    var t := TPrefix(u);
    APrefixSpec(w);
    TPrefixSpec(u);
    j := i + t;
    assert i == 0 ==> t > 0;
    assert w[i..j] == u[..t];
    assert w == w[..i] + w[i..j] + w[j..];
    assert IsBlock(Block(w[..i], w[i..j]));
  }

  /** The blocks spell the word back. */
  lemma {:induction false} BlocksFlatten(w: seq<char>)
    ensures Flatten(Blocks(w)) == w
    decreases |w|
  {
    if w != [] {
      var i, j := BlocksCons(w);
      var bs := Blocks(w);
      BlocksFlatten(w[j..]);
      assert bs[0] == Block(w[..i], w[i..j]) && bs[1..] == Blocks(w[j..]);
    }
  }

  /** Every block is an a-run (no t-letter) followed by a t-run, and only the
      last block can have an empty t-run. */
  lemma {:induction false} BlocksWellFormed(w: seq<char>)
    ensures forall k :: 0 <= k < |Blocks(w)| ==> IsBlock(Blocks(w)[k])
    ensures forall k :: 0 <= k < |Blocks(w)| - 1 ==> Blocks(w)[k].t != []
    decreases |w|
  {
    if w != [] {
      var i, j := BlocksCons(w);
      var bs, rest := Blocks(w), Blocks(w[j..]);
      BlocksWellFormed(w[j..]);
      assert bs[0] == Block(w[..i], w[i..j]) && |bs| == |rest| + 1;
      if w[i..j] == [] {
        assert rest == [];
      }
      forall k | 0 < k < |bs|
        ensures bs[k] == rest[k - 1]
      {
      }
    }
  }

  /** The blocks are maximal: every block after the first starts with an
      a-letter, because the t-run before it runs up to the next a-letter. */
  lemma {:induction false} BlocksMaximal(w: seq<char>)
    ensures forall k :: 0 < k < |Blocks(w)| ==> Blocks(w)[k].a != []
    decreases |w|
  {
    if w != [] {
      var i, j := BlocksCons(w);
      var rest := Blocks(w[j..]);
      BlocksMaximal(w[j..]);
      assert rest == Blocks(w)[1..];
      if j < |w| {
        var i', j' := BlocksCons(w[j..]);
        assert !IsT(w[j..][0]) by {
          TPrefixSpec(w[i..]);
          assert w[j..][0] == w[i..][j - i];
        }
        APrefixSpec(w[j..]);
        assert rest[0].a == w[j..][..i'] != [];
      }
    }
  }

  lemma BlocksShape(w: seq<char>)
    ensures Flatten(Blocks(w)) == w
    ensures forall k :: 0 <= k < |Blocks(w)| ==> IsBlock(Blocks(w)[k])
    ensures forall k :: 0 <= k < |Blocks(w)| - 1 ==> Blocks(w)[k].t != []
    ensures forall k :: 0 < k < |Blocks(w)| ==> Blocks(w)[k].a != []
  {
    BlocksFlatten(w);
    BlocksWellFormed(w);
    BlocksMaximal(w);
  }

  /** A block's a-run has no t-letter and its t-run only t-letters. */
  predicate IsBlock(b: Block)
  {
    (forall i :: 0 <= i < |b.a| ==> !IsT(b.a[i])) && (forall i :: 0 <= i < |b.t| ==> IsT(b.t[i]))
  }

  /** The bound on an a-run standing before the t-letter c: |l| before `t`,
      |m| before `T`. */
  function Modulus(c: char, m: int, l: int): nat
  {
    if c == 't' then Abs(l) else Abs(m)
  }

  /** The number of a-letters one block of Modulus(c) a-letters turns into once
      moved past c: |m| past `t`, |l| past `T`. */
  function Companion(c: char, m: int, l: int): nat
  {
    if c == 't' then Abs(m) else Abs(l)
  }

  /** The letter of a moved a-block: its case flips when m*l < 0. */
  function MovedLetter(c: char, m: int, l: int): char
  {
    if (m < 0) != (l < 0) then Swap(c) else c
  }

  /** `m*l < 0`, the test `normal_form` and `cyclic_normal` use, holds exactly
      when the signs of m and l differ. */
  lemma SwapSign(m: int, l: int)
    requires m != 0 && l != 0
    ensures m * l < 0 <==> (m < 0) != (l < 0)
  {
    if m > 0 && l > 0 {
      assert m * l > 0;
    } else if m > 0 && l < 0 {
      assert m * (-l) > 0;
    } else if m < 0 && l > 0 {
      assert (-m) * l > 0;
    } else {
      assert (-m) * (-l) > 0;
    }
  }

  /** A block whose a-run is too long for the t-letter after it. */
  predicate Violation(b: Block, m: int, l: int)
  {
    b.t != [] && |b.a| >= Modulus(b.t[0], m, l)
  }

  /** The index of the first block with a too-long a-run, or |bs| if there is none. */
  function FirstViolation(bs: seq<Block>, m: int, l: int): (k: nat)
    ensures k <= |bs|
    ensures k < |bs| ==> Violation(bs[k], m, l)
  {
    if bs == [] then 0
    else if Violation(bs[0], m, l) then 0
    else 1 + FirstViolation(bs[1..], m, l)
  }

  /** FirstViolation finds the first too-long a-run ... */
  lemma {:induction false} FirstViolationSpec(bs: seq<Block>, m: int, l: int)
    ensures forall i :: 0 <= i < FirstViolation(bs, m, l) ==> !Violation(bs[i], m, l)
    ensures FirstViolation(bs, m, l) < |bs| ==> Violation(bs[FirstViolation(bs, m, l)], m, l)
  {
    if bs != [] && !Violation(bs[0], m, l) {
      FirstViolationSpec(bs[1..], m, l);
      assert forall i :: 1 <= i < |bs| ==> bs[i] == bs[1..][i - 1];
    }
  }

  /** ... and is the only index that is one with none before it. */
  lemma {:induction false} FirstViolationAt(bs: seq<Block>, k: nat, m: int, l: int)
    requires k <= |bs| && (k < |bs| ==> Violation(bs[k], m, l))
    requires forall i :: 0 <= i < k ==> !Violation(bs[i], m, l)
    ensures FirstViolation(bs, m, l) == k
  {
    if k > 0 {
      assert !Violation(bs[0], m, l);
      FirstViolationAt(bs[1..], k - 1, m, l);
    }
  }

  /** What stays of an a-run of length n when blocks of r letters are moved:
      n - q*r for q = n / r, by repeated subtraction. */
  function Rem(n: nat, r: nat): (c: nat)
    requires r > 0
    ensures c <= n && c < r
    decreases n
  {
    if n < r then n else Rem(n - r, r)
  }

  /** The number of letters the moved blocks turn into: q*s for q = n / r. */
  function MovedCount(n: nat, r: nat, s: nat): nat
    requires r > 0
    decreases n
  {
    if n < r then 0 else s + MovedCount(n - r, r, s)
  }

  lemma MulAtLeast(a: int, r: int)
    requires a >= 1 && r > 0
    ensures a * r >= r
  {
  }

  /** Floor division is determined by the remainder being in range. */
  lemma DivUnique(n: nat, r: nat, q: int, c: int)
    requires r > 0 && n == q * r + c && 0 <= c < r
    ensures n / r == q
  {
    var q0, c0 := n / r, n % r;
    assert (q - q0) * r == c0 - c;
    assert (q0 - q) * r == c - c0;
    if q != q0 {
      MulAtLeast(if q > q0 then q - q0 else q0 - q, r);
    }
  }

  lemma DivStep(n: nat, r: nat)
    requires 0 < r <= n
    ensures n / r == (n - r) / r + 1
  {
    var q, c := (n - r) / r, (n - r) % r;
    assert n == (q + 1) * r + c;
    DivUnique(n, r, q + 1, c);
  }

  lemma MulSucc(q: int, r: int)
    ensures (q + 1) * r == q * r + r
  {
  }

  /** The letters that stay are those `normal_form` keeps, n - q*r with
      q = int(n/r), which is floor division on non-negative lengths ... */
  lemma {:induction false} RemIsMod(n: nat, r: nat)
    requires r > 0
    ensures Rem(n, r) == n - (n / r) * r
    decreases n
  {
    if n >= r {
      RemIsMod(n - r, r);
      DivStep(n, r);
      MulSucc((n - r) / r, r);
    }
  }

  /** ... and the letters moved number q*s. */
  lemma {:induction false} MovedCountIsProduct(n: nat, r: nat, s: nat)
    requires r > 0
    ensures MovedCount(n, r, s) == (n / r) * s
    decreases n
  {
    if n >= r {
      MovedCountIsProduct(n - r, r, s);
      DivStep(n, r);
      MulSucc((n - r) / r, s);
    }
  }

  /** One application of the relator t a^m t^-1 = a^l to a block with a
      too-long a-run of length q*r + c: the first c letters stay, the first
      t-letter comes forward, and q*s letters of the same a-letter (its case
      flipped when m*l < 0) are moved past it. */
  function RewriteBlock(b: Block, m: int, l: int): seq<char>
    requires m != 0 && l != 0
    requires Violation(b, m, l)
  {
    var r := Modulus(b.t[0], m, l);
    var s := Companion(b.t[0], m, l);
    b.a[..Rem(|b.a|, r)] + [b.t[0]] + Repeat(MovedLetter(b.a[0], m, l), MovedCount(|b.a|, r, s)) + b.t[1..]
  }

  /** The word with the relator applied at block k. */
  function Rewrite(bs: seq<Block>, k: nat, m: int, l: int): seq<char>
    requires m != 0 && l != 0
    requires k < |bs| && Violation(bs[k], m, l)
  {
    Flatten(bs[..k]) + RewriteBlock(bs[k], m, l) + Flatten(bs[k + 1..])
  }

  /** The result of `normal_form(g, m, l)` when at most `fuel` recursive calls
      are allowed: None when the rewriting needs more. */
  function NF(g: seq<char>, m: int, l: int, fuel: nat): Option<seq<char>>
    requires m != 0 && l != 0
    decreases fuel
  {
    var w := Reduce(g);
    var bs := Blocks(w);
    var k := FirstViolation(bs, m, l);
    if k == |bs| then Some(w)
    else if fuel == 0 then None
    else
      match NF(Rewrite(bs, k, m, l), m, l, fuel - 1)
      case None => None
      case Some(v) => Some(Reduce(v))
  }

  /** What NF returns after a rewrite to v: the normal form of v with one
      call fewer, tightened. */
  function Continue(v: seq<char>, m: int, l: int, fuel: nat): Option<seq<char>>
    requires m != 0 && l != 0
  {
    if fuel == 0 then None
    else match NF(v, m, l, fuel - 1)
      case None => None
      case Some(x) => Some(Reduce(x))
  }

  /** The normal-form shape as a property of letters: the a-run just before a
      `t` is shorter than |l|, the a-run just before a `T` shorter than |m|. */
  predicate InNormalForm(w: seq<char>, m: int, l: int)
  {
    forall k :: 0 <= k < |w| && IsT(w[k]) ==> ARun(w[..k]) < Modulus(w[k], m, l)
  }

  /** Length of the a-run at the end of w. */
  function ARun(s: seq<char>): (n: nat)
    ensures n <= |s|
  {
    if s == [] || IsT(s[|s| - 1]) then 0 else ARun(s[..|s| - 1]) + 1
  }

  lemma BlockAt(w: seq<char>, k: int)
    requires 0 <= k < |Blocks(w)|
    ensures IsBlock(Blocks(w)[k])
  {
    BlocksWellFormed(w);
  }

  /** Only the last block can have an empty t-run. */
  lemma LastBlock(w: seq<char>, i: int)
    requires 0 <= i < |Blocks(w)| && Blocks(w)[i].t == []
    ensures i == |Blocks(w)| - 1
  {
    BlocksWellFormed(w);
  }

  /** A last block with an empty t-run is never too long. */
  lemma NoViolationLast(bs: seq<Block>, i: int, m: int, l: int)
    requires i == |bs| - 1 && 0 <= i && bs[i].t == []
    requires forall j :: 0 <= j < i ==> !Violation(bs[j], m, l)
    ensures forall j :: 0 <= j < |bs| ==> !Violation(bs[j], m, l)
  {
  }

  /** The three ways `normal_form` ends, in terms of `NF`. The walk reaches
      the last block, whose t-run is empty, without a too-long a-run ... */
  lemma NFLastBlock(g: seq<char>, bs: seq<Block>, i: int, gInit: seq<char>, m: int, l: int, fuel: nat)
    requires m != 0 && l != 0 && bs == Blocks(Reduce(g))
    requires 0 <= i < |bs| && bs[i].t == [] && gInit == Flatten(bs[..i])
    requires forall j :: 0 <= j < i ==> !Violation(bs[j], m, l)
    ensures NF(g, m, l, fuel) == Some(gInit + bs[i].a)
  {
    LastBlock(Reduce(g), i);
    BlocksFlatten(Reduce(g));
    FlattenSnoc(bs, i);
    assert bs[..i + 1] == bs;
    assert gInit + bs[i].a + bs[i].t == gInit + bs[i].a;
    NoViolationLast(bs, i, m, l);
    FirstViolationAt(bs, |bs|, m, l);
  }

  /** ... or the walk passes every block without a too-long a-run ... */
  lemma NFAllClear(g: seq<char>, bs: seq<Block>, gInit: seq<char>, m: int, l: int, fuel: nat)
    requires m != 0 && l != 0 && bs == Blocks(Reduce(g))
    requires gInit == Flatten(bs)
    requires forall j :: 0 <= j < |bs| ==> !Violation(bs[j], m, l)
    ensures NF(g, m, l, fuel) == Some(Reduce(gInit))
  {
    BlocksFlatten(Reduce(g));
    ReduceIdempotent(g);
    FirstViolationAt(bs, |bs|, m, l);
  }

  /** ... or it meets the first too-long a-run at block k and starts over on
      the rewritten word. */
  lemma NFRewrite(g: seq<char>, bs: seq<Block>, k: nat, gInit: seq<char>, gTerm: seq<char>,
                  m: int, l: int, fuel: nat)
    requires m != 0 && l != 0 && bs == Blocks(Reduce(g))
    requires k < |bs| && Violation(bs[k], m, l)
    requires forall j :: 0 <= j < k ==> !Violation(bs[j], m, l)
    requires gInit == Flatten(bs[..k])
    requires gTerm == RewriteBlock(bs[k], m, l) + Flatten(bs[k + 1..])
    ensures NF(g, m, l, fuel) == Continue(gInit + gTerm, m, l, fuel)
  {
    FirstViolationAt(bs, k, m, l);
    assert gInit + gTerm == Rewrite(bs, k, m, l);
  }

  /** Everything proved about `NF`, in one place. */
  lemma NFSpec(g: seq<char>, m: int, l: int, fuel: nat)
    requires m != 0 && l != 0
    ensures NF(g, m, l, fuel).Some? ==>
      IsTight(NF(g, m, l, fuel).value) && TExp(NF(g, m, l, fuel).value) == TExp(g)
      && InNormalForm(NF(g, m, l, fuel).value, m, l)
    ensures TLen(Reduce(g)) == 0 ==> NF(g, m, l, fuel) == Some(Reduce(g))
  {
    NFTight(g, m, l, fuel);
    NFTExp(g, m, l, fuel);
    NFInNormalForm(g, m, l, fuel);
    NFWithoutT(g, m, l, fuel);
  }

  /** Growing a slice of blocks by one block grows the word it spells by
      that block. */
  lemma FlattenSliceSnoc(bs: seq<Block>, from: int, i: int)
    requires 0 <= from <= i < |bs|
    ensures Flatten(bs[from..i + 1]) == Flatten(bs[from..i]) + bs[i].a + bs[i].t
  {
    var tail := bs[from..];
    FlattenSnoc(tail, i - from);
    assert tail[..i - from + 1] == bs[from..i + 1];
    assert tail[..i - from] == bs[from..i];
    assert tail[i - from] == bs[i];
  }

  /** The blocks from index `from` on appended to `head` one by one, as
      `normal_form` appends the blocks after the rewritten one. */
  method AppendBlocks(head: seq<char>, blocks: seq<Block>, from: nat) returns (gTerm: seq<char>)
    requires from <= |blocks|
    ensures gTerm == head + Flatten(blocks[from..])
  {
    gTerm := head;
    var i := from;
    while i < |blocks|
      invariant from <= i <= |blocks|
      invariant gTerm == head + Flatten(blocks[from..i])
    {
      FlattenSliceSnoc(blocks, from, i);
      gTerm := gTerm + blocks[i].a + blocks[i].t;
      i := i + 1;
    }
    assert blocks[from..i] == blocks[from..];
  }

  /** `normal_form`: tighten, walk the blocks left to right keeping the prefix
      that is already in normal form, and at the first too-long a-run rewrite
      the rest of the word and start over on it. */
  method NormalForm(g: seq<char>, m: int, l: int, fuel: nat) returns (nf: Option<seq<char>>)
    requires m != 0 && l != 0
    ensures nf == NF(g, m, l, fuel)
    decreases fuel, 1
  {
    var gTight := Tighten(g);
    var blocks := Blocks(gTight);
    var gInit := [];
    var i := 0;
    while i < |blocks|
      invariant 0 <= i <= |blocks|
      invariant gInit == Flatten(blocks[..i])
      invariant forall j :: 0 <= j < i ==> !Violation(blocks[j], m, l)
    {
      var aBlock, tBlock := blocks[i].a, blocks[i].t;
      if tBlock == [] {
        NFLastBlock(g, blocks, i, gInit, m, l, fuel);
        return Some(gInit + aBlock);
      }
      FlattenSnoc(blocks, i);
      i := i + 1;
      if |aBlock| < Modulus(tBlock[0], m, l) {
        gInit := gInit + aBlock + tBlock;
      } else {
        var gTerm := AppendBlocks(RewriteBlock(blocks[i - 1], m, l), blocks, i);
        NFRewrite(g, blocks, i - 1, gInit, gTerm, m, l, fuel);
        nf := Restart(gInit + gTerm, m, l, fuel);
        return;
      }
    }
    assert blocks[..i] == blocks;
    NFAllClear(g, blocks, gInit, m, l, fuel);
    var res := Tighten(gInit);
    nf := Some(res);
  }

  /** The recursive call of `normal_form` on the rewritten word v, tightened. */
  method Restart(v: seq<char>, m: int, l: int, fuel: nat) returns (nf: Option<seq<char>>)
    requires m != 0 && l != 0
    ensures nf == Continue(v, m, l, fuel)
    decreases fuel, 0
  {
    if fuel == 0 {
      return None;
    }
    var gNormal := NormalForm(v, m, l, fuel - 1);
    if gNormal.None? {
      return None;
    }
    var res := Tighten(gNormal.value);
    return Some(res);
  }

  /** Every normal form is a tight word. */
  lemma NFTight(g: seq<char>, m: int, l: int, fuel: nat)
    requires m != 0 && l != 0
    ensures NF(g, m, l, fuel).Some? ==> IsTight(NF(g, m, l, fuel).value)
  {
    ReduceIsTight(g);
    var bs := Blocks(Reduce(g));
    var k := FirstViolation(bs, m, l);
    FirstViolationSpec(bs, m, l);
    if k < |bs| && fuel > 0 {
      var sub := NF(Rewrite(bs, k, m, l), m, l, fuel - 1);
      if sub.Some? {
        ReduceIsTight(sub.value);
      }
    }
  }

  /** A word without t-letters has t-length zero. */
  lemma NoTZero(w: seq<char>)
    requires forall i :: 0 <= i < |w| ==> !IsT(w[i])
    ensures TExp(w) == 0 && TLen(w) == 0
  {
    TLenZero(w);
  }

  /** Splitting the block list at k splits the word it spells. */
  lemma FlattenSplit(bs: seq<Block>, k: int)
    requires 0 <= k < |bs|
    ensures Flatten(bs) == Flatten(bs[..k]) + (bs[k].a + bs[k].t) + Flatten(bs[k + 1..])
  {
    var tail := bs[k..];
    assert bs == bs[..k] + tail;
    FlattenConcat(bs[..k], tail);
    assert tail[0] == bs[k] && tail[1..] == bs[k + 1..];
    assert Flatten(tail) == bs[k].a + bs[k].t + Flatten(bs[k + 1..]);
  }

  /** Rewriting one block keeps its t-letters in order and moves only
      a-letters. */
  lemma RewriteBlockT(b: Block, m: int, l: int)
    requires m != 0 && l != 0
    requires Violation(b, m, l) && IsBlock(b)
    ensures TExp(RewriteBlock(b, m, l)) == TExp(b.a + b.t)
    ensures TLen(RewriteBlock(b, m, l)) == TLen(b.a + b.t)
  {
    var r := Modulus(b.t[0], m, l);
    var s := Companion(b.t[0], m, l);
    var kept := b.a[..Rem(|b.a|, r)];
    var moved := Repeat(MovedLetter(b.a[0], m, l), MovedCount(|b.a|, r, s));
    var t0, t1 := [b.t[0]], b.t[1..];
    NoTZero(kept);
    RepeatLetters(MovedLetter(b.a[0], m, l), MovedCount(|b.a|, r, s));
    NoTZero(moved);
    NoTZero(b.a);
    assert b.t == t0 + t1;
    TConcat(b.a, b.t);
    TConcat(t0, t1);
    TConcat(kept, t0);
    TConcat(kept + t0, moved);
    TConcat(kept + t0 + moved, t1);
  }

  /** Rewriting a block keeps every t-letter and moves only a-letters. */
  lemma RewriteT(bs: seq<Block>, k: nat, m: int, l: int)
    requires m != 0 && l != 0
    requires k < |bs| && Violation(bs[k], m, l) && IsBlock(bs[k])
    ensures TExp(Rewrite(bs, k, m, l)) == TExp(Flatten(bs))
    ensures TLen(Rewrite(bs, k, m, l)) == TLen(Flatten(bs))
  {
    var pre, post := Flatten(bs[..k]), Flatten(bs[k + 1..]);
    var x, y := RewriteBlock(bs[k], m, l), bs[k].a + bs[k].t;
    FlattenSplit(bs, k);
    RewriteBlockT(bs[k], m, l);
    TConcat(pre, x);
    TConcat(pre + x, post);
    TConcat(pre, y);
    TConcat(pre + y, post);
  }

  /** The relator keeps the t-exponent sum of the word it is applied to. */
  lemma RewriteTExp(g: seq<char>, k: nat, m: int, l: int)
    requires m != 0 && l != 0
    requires k < |Blocks(Reduce(g))| && Violation(Blocks(Reduce(g))[k], m, l)
    ensures TExp(Rewrite(Blocks(Reduce(g)), k, m, l)) == TExp(g)
  {
    var w := Reduce(g);
    ReduceTExp(g);
    BlocksFlatten(w);
    BlockAt(w, k);
    RewriteT(Blocks(w), k, m, l);
  }

  /** Rewriting a block of a word over the alphabet gives a word over the
      alphabet: the moved letters are a-letters. */
  lemma RewriteBlockIsWord(b: Block, m: int, l: int)
    requires m != 0 && l != 0
    requires Violation(b, m, l) && IsBlock(b) && IsWord(b.a + b.t)
    ensures IsWord(RewriteBlock(b, m, l))
  {
    var r := Modulus(b.t[0], m, l);
    var s := Companion(b.t[0], m, l);
    var c := MovedLetter(b.a[0], m, l);
    var n := MovedCount(|b.a|, r, s);
    IsWordConcat(b.a, b.t);
    assert IsA(b.a[0]);
    RepeatLetters(c, n);
    assert b.t == [b.t[0]] + b.t[1..];
    IsWordConcat([b.t[0]], b.t[1..]);
    IsWordConcat(b.a[..Rem(|b.a|, r)], [b.t[0]]);
    IsWordConcat(b.a[..Rem(|b.a|, r)] + [b.t[0]], Repeat(c, n));
    IsWordConcat(b.a[..Rem(|b.a|, r)] + [b.t[0]] + Repeat(c, n), b.t[1..]);
  }

  /** The relator keeps a word over the alphabet one. */
  lemma RewriteIsWord(g: seq<char>, k: nat, m: int, l: int)
    requires m != 0 && l != 0 && IsWord(g)
    requires k < |Blocks(Reduce(g))| && Violation(Blocks(Reduce(g))[k], m, l)
    ensures IsWord(Rewrite(Blocks(Reduce(g)), k, m, l))
  {
    var w := Reduce(g);
    var bs := Blocks(w);
    var pre, post := Flatten(bs[..k]), Flatten(bs[k + 1..]);
    ReduceIsWord(g);
    BlocksFlatten(w);
    BlockAt(w, k);
    FlattenSplit(bs, k);
    IsWordConcat(pre + (bs[k].a + bs[k].t), post);
    IsWordConcat(pre, bs[k].a + bs[k].t);
    RewriteBlockIsWord(bs[k], m, l);
    IsWordConcat(pre, RewriteBlock(bs[k], m, l));
    IsWordConcat(pre + RewriteBlock(bs[k], m, l), post);
  }

  /** Continuing on a word over the alphabet whose normal form is one gives
      one. */
  lemma ContinueIsWord(v: seq<char>, m: int, l: int, fuel: nat)
    requires m != 0 && l != 0 && IsWord(v)
    ensures Continue(v, m, l, fuel).Some? ==> IsWord(Continue(v, m, l, fuel).value)
    decreases fuel, 0
  {
    if fuel > 0 {
      NFIsWord(v, m, l, fuel - 1);
      if NF(v, m, l, fuel - 1).Some? {
        ReduceIsWord(NF(v, m, l, fuel - 1).value);
      }
    }
  }

  /** The normal form of a word over the alphabet is one. */
  lemma {:induction false} NFIsWord(g: seq<char>, m: int, l: int, fuel: nat)
    requires m != 0 && l != 0 && IsWord(g)
    ensures NF(g, m, l, fuel).Some? ==> IsWord(NF(g, m, l, fuel).value)
    decreases fuel, 1
  {
    var bs := Blocks(Reduce(g));
    var k := FirstViolation(bs, m, l);
    if k == |bs| {
      ReduceIsWord(g);
    } else {
      var v := Rewrite(bs, k, m, l);
      RewriteIsWord(g, k, m, l);
      ContinueIsWord(v, m, l, fuel);
    }
  }

  /** Continuing on a word whose normal form keeps its t-exponent sum keeps
      it too. */
  lemma ContinueTExp(v: seq<char>, m: int, l: int, fuel: nat)
    requires m != 0 && l != 0
    ensures Continue(v, m, l, fuel).Some? ==> TExp(Continue(v, m, l, fuel).value) == TExp(v)
    decreases fuel, 0
  {
    if fuel > 0 {
      NFTExp(v, m, l, fuel - 1);
      if NF(v, m, l, fuel - 1).Some? {
        ReduceTExp(NF(v, m, l, fuel - 1).value);
      }
    }
  }

  /** Every normal form has the t-exponent sum of the word it comes from. */
  lemma {:induction false} NFTExp(g: seq<char>, m: int, l: int, fuel: nat)
    requires m != 0 && l != 0
    ensures NF(g, m, l, fuel).Some? ==> TExp(NF(g, m, l, fuel).value) == TExp(g)
    decreases fuel, 1
  {
    var bs := Blocks(Reduce(g));
    var k := FirstViolation(bs, m, l);
    if k == |bs| {
      ReduceTExp(g);
    } else {
      var v := Rewrite(bs, k, m, l);
      ContinueTExp(v, m, l, fuel);
      RewriteTExp(g, k, m, l);
    }
  }

  /** Behind a t-letter, the a-run at the end of x + y is that of y alone. */
  lemma {:induction false} ARunAfterT(x: seq<char>, y: seq<char>)
    requires x != [] && IsT(x[|x| - 1])
    ensures ARun(x + y) == ARun(y)
    decreases |y|
  {
    if y == [] {
      assert x + y == x;
    } else {
      assert (x + y)[..|x + y| - 1] == x + y[..|y| - 1];
      ARunAfterT(x, y[..|y| - 1]);
    }
  }

  lemma {:induction false} ARunOfAs(s: seq<char>)
    requires forall i :: 0 <= i < |s| ==> !IsT(s[i])
    ensures ARun(s) == |s|
    decreases |s|
  {
    if s != [] {
      ARunOfAs(s[..|s| - 1]);
    }
  }

  /** Past a t-letter at j - 1, the a-run before position k is measured in
      the rest of the word alone. */
  lemma ARunShift(w: seq<char>, j: int, k: int)
    requires 0 < j <= k <= |w| && IsT(w[j - 1])
    ensures ARun(w[..k]) == ARun(w[j..][..k - j])
  {
    assert w[..k] == w[..j] + w[j..][..k - j];
    ARunAfterT(w[..j], w[j..][..k - j]);
  }

  /** A word that starts with an a-run w[..i] and a nonempty t-run w[i..j]
      has the normal-form shape when its first a-run is short enough ... */
  lemma InNormalFormCons(w: seq<char>, i: int, j: int, m: int, l: int)
    requires m != 0 && l != 0
    requires 0 <= i < j <= |w|
    requires forall p :: 0 <= p < i ==> !IsT(w[p])
    requires forall p :: i <= p < j ==> IsT(w[p])
    requires i < Modulus(w[i], m, l) && InNormalForm(w[j..], m, l)
    ensures InNormalForm(w, m, l)
  {
    ARunOfAs(w[..i]);
    forall k | 0 <= k < |w| && IsT(w[k])
      ensures ARun(w[..k]) < Modulus(w[k], m, l)
    {
      if i < k < j {
        assert IsT(w[..k][k - 1]);
      } else if j <= k {
        ARunShift(w, j, k);
        assert w[k] == w[j..][k - j];
      }
    }
  }

  /** ... and only then. */
  lemma InNormalFormUncons(w: seq<char>, i: int, j: int, m: int, l: int)
    requires 0 <= i < j <= |w|
    requires forall p :: 0 <= p < i ==> !IsT(w[p])
    requires forall p :: i <= p < j ==> IsT(w[p])
    requires InNormalForm(w, m, l)
    ensures i < Modulus(w[i], m, l) && InNormalForm(w[j..], m, l)
  {
    ARunOfAs(w[..i]);
    var rest := w[j..];
    forall p | 0 <= p < |rest| && IsT(rest[p])
      ensures ARun(rest[..p]) < Modulus(rest[p], m, l)
    {
      ARunShift(w, j, p + j);
      assert rest[p] == w[p + j];
    }
  }

  /** A word without t-letters has the normal-form shape. */
  lemma NoTInNormalForm(w: seq<char>, m: int, l: int)
    requires forall p :: 0 <= p < |w| ==> !IsT(w[p])
    ensures InNormalForm(w, m, l)
  {
  }

  /** Dropping letters from the front never lengthens the final a-run. */
  lemma {:induction false} ARunSuffix(s: seq<char>, a: nat)
    requires a <= |s|
    ensures ARun(s[a..]) <= ARun(s)
    decreases |s|
  {
    if a < |s| && !IsT(s[|s| - 1]) {
      assert s[a..][..|s| - a - 1] == s[..|s| - 1][a..];
      ARunSuffix(s[..|s| - 1], a);
    }
  }

  /** Every piece cut out of a word in normal form is in normal form: the
      a-run before each of its t-letters is at most the one in the word. */
  lemma InNormalFormSlice(w: seq<char>, a: nat, b: nat, m: int, l: int)
    requires a <= b <= |w| && InNormalForm(w, m, l)
    ensures InNormalForm(w[a..b], m, l)
  {
    var v := w[a..b];
    forall k | 0 <= k < |v| && IsT(v[k])
      ensures ARun(v[..k]) < Modulus(v[k], m, l)
    {
      assert v[..k] == w[..a + k][a..];
      ARunSuffix(w[..a + k], a);
      assert v[k] == w[a + k];
    }
  }

  /** A word in normal form followed by a-letters is in normal form. */
  lemma InNormalFormTail(v: seq<char>, n: nat, m: int, l: int)
    requires n <= |v| && InNormalForm(v[..n], m, l)
    requires forall i :: n <= i < |v| ==> !IsT(v[i])
    ensures InNormalForm(v, m, l)
  {
    forall k | 0 <= k < |v| && IsT(v[k])
      ensures ARun(v[..k]) < Modulus(v[k], m, l)
    {
      assert v[..k] == v[..n][..k] && v[k] == v[..n][k];
    }
  }

  lemma FirstViolationCons(b: Block, rest: seq<Block>, m: int, l: int)
    ensures FirstViolation([b] + rest, m, l) == |[b] + rest|
      <==> !Violation(b, m, l) && FirstViolation(rest, m, l) == |rest|
  {
    assert ([b] + rest)[0] == b && ([b] + rest)[1..] == rest;
  }

  /** The blocks have no too-long a-run exactly when the word has the
      normal-form shape. */
  lemma {:induction false} NoViolationIff(w: seq<char>, m: int, l: int)
    requires m != 0 && l != 0
    ensures FirstViolation(Blocks(w), m, l) == |Blocks(w)| <==> InNormalForm(w, m, l)
    decreases |w|
  {
    if w != [] {
      var i, j := BlocksCons(w);
      var b := Block(w[..i], w[i..j]);
      FirstViolationCons(b, Blocks(w[j..]), m, l);
      if b.t == [] {
        assert Blocks(w[j..]) == [];
        NoTInNormalForm(w, m, l);
      } else {
        NoViolationIff(w[j..], m, l);
        assert b.t[0] == w[i];
        if InNormalForm(w, m, l) {
          InNormalFormUncons(w, i, j, m, l);
        } else if !Violation(b, m, l) && InNormalForm(w[j..], m, l) {
          InNormalFormCons(w, i, j, m, l);
        }
      }
    }
  }

  /** Every normal form has the normal-form shape. */
  lemma {:induction false} NFInNormalForm(g: seq<char>, m: int, l: int, fuel: nat)
    requires m != 0 && l != 0
    ensures NF(g, m, l, fuel).Some? ==> InNormalForm(NF(g, m, l, fuel).value, m, l)
    decreases fuel
  {
    var w := Reduce(g);
    var bs := Blocks(w);
    var k := FirstViolation(bs, m, l);
    FirstViolationSpec(bs, m, l);
    if k == |bs| {
      NoViolationIff(w, m, l);
    } else if fuel > 0 {
      var v := Rewrite(bs, k, m, l);
      NFInNormalForm(v, m, l, fuel - 1);
      NFTight(v, m, l, fuel - 1);
      var sub := NF(v, m, l, fuel - 1);
      if sub.Some? {
        ReduceOfTight(sub.value);
      }
    }
  }

  /** If the tightened word has no t-letter, the normal form is that word. */
  lemma NFWithoutT(g: seq<char>, m: int, l: int, fuel: nat)
    requires m != 0 && l != 0
    ensures TLen(Reduce(g)) == 0 ==> NF(g, m, l, fuel) == Some(Reduce(g))
  {
    var w := Reduce(g);
    if TLen(w) == 0 {
      TLenZero(w);
      NoViolationIff(w, m, l);
    }
  }

  /** The words that `normal_form` returns unchanged are exactly the tight
      words of normal-form shape. */
  lemma NFFixpoint(w: seq<char>, m: int, l: int, fuel: nat)
    requires m != 0 && l != 0
    ensures NF(w, m, l, fuel) == Some(w) <==> IsTight(w) && InNormalForm(w, m, l)
  {
    NFTight(w, m, l, fuel);
    NFInNormalForm(w, m, l, fuel);
    if IsTight(w) && InNormalForm(w, m, l) {
      ReduceOfTight(w);
      NoViolationIff(w, m, l);
    }
  }

  /** `normal_form` is idempotent: a normal form is its own normal form, with
      any budget. */
  lemma NFIdempotent(g: seq<char>, m: int, l: int, fuel: nat, fuel': nat)
    requires m != 0 && l != 0
    requires NF(g, m, l, fuel).Some?
    ensures NF(NF(g, m, l, fuel).value, m, l, fuel') == NF(g, m, l, fuel)
  {
    var r := NF(g, m, l, fuel).value;
    NFTight(g, m, l, fuel);
    NFInNormalForm(g, m, l, fuel);
    NFFixpoint(r, m, l, fuel');
  }
}
