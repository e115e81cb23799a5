/** Words of the Baumslag-Solitar group BS(m,l) = <a,t | t a^m t^-1 = a^l>.
    A word is a string over {a, A, t, T}; the upper-case letter is the inverse
    of the lower-case one. This module holds the free-group algebra of words:
    counting t-letters, free reduction (tightening) and inversion. */
module Words {

  /** `a` and its inverse. */
  predicate IsA(c: char) { c == 'a' || c == 'A' }

  /** `t` and its inverse. */
  predicate IsT(c: char) { c == 't' || c == 'T' }

  /** A word uses only the four letters of the alphabet. */
  predicate IsWord(w: seq<char>) { forall i :: 0 <= i < |w| ==> IsA(w[i]) || IsT(w[i]) }

  lemma IsWordConcat(u: seq<char>, v: seq<char>)
    ensures IsWord(u + v) <==> IsWord(u) && IsWord(v)
  {
    assert forall i :: 0 <= i < |u| ==> (u + v)[i] == u[i];
    assert forall i :: 0 <= i < |v| ==> (u + v)[|u| + i] == v[i];
  }

  /** The inverse of a letter: Python's `swapcase` on the alphabet. Other
      characters are outside the word encoding and are left as they are. */
  function Swap(c: char): (d: char)
    ensures IsA(d) <==> IsA(c)
    ensures IsT(d) <==> IsT(c)
    ensures (IsA(c) || IsT(c)) ==> d != c
  {
    if c == 'a' then 'A'
    else if c == 'A' then 'a'
    else if c == 't' then 'T'
    else if c == 'T' then 't'
    else c
  }

  lemma SwapSwap(c: char)
    ensures Swap(Swap(c)) == c
  {
  }

  /** Number of occurrences of the character c in w (Python's `str.count`). */
  function Count(w: seq<char>, c: char): nat
  {
    if w == [] then 0 else (if w[0] == c then 1 else 0) + Count(w[1..], c)
  }

  lemma {:induction false} CountConcat(u: seq<char>, v: seq<char>, c: char)
    ensures Count(u + v, c) == Count(u, c) + Count(v, c)
  {
    if u == [] {
      assert u + v == v;
    } else {
      assert (u + v)[1..] == u[1..] + v;
      CountConcat(u[1..], v, c);
    }
  }

  /** Each position holds at most one of two distinct characters. */
  lemma {:induction false} CountTwo(w: seq<char>, c: char, d: char)
    requires c != d
    ensures Count(w, c) + Count(w, d) <= |w|
  {
    if w != [] {
      CountTwo(w[1..], c, d);
    }
  }

  /** The t-exponent sum of a word: #t - #T. It lies between minus and plus
      the t-length. */
  function TExp(w: seq<char>): (e: int)
    ensures e <= TLen(w) && -e <= TLen(w)
  {
    Count(w, 't') - Count(w, 'T')
  }

  /** The t-length of a word: #t + #T, at most its length. */
  function TLen(w: seq<char>): (n: nat)
    ensures n <= |w|
  {
    CountTwo(w, 't', 'T');
    Count(w, 't') + Count(w, 'T')
  }

  lemma TConcat(u: seq<char>, v: seq<char>)
    ensures TExp(u + v) == TExp(u) + TExp(v)
    ensures TLen(u + v) == TLen(u) + TLen(v)
  {
    CountConcat(u, v, 't');
    CountConcat(u, v, 'T');
  }

  /** A letter and its inverse have opposite t-exponents and equal t-lengths. */
  lemma SwapT(c: char)
    ensures TExp([Swap(c)]) == -TExp([c])
    ensures TLen([Swap(c)]) == TLen([c])
  {
    var d := Swap(c);
    assert [c][1..] == [] && [d][1..] == [];
    assert Count([c], 't') == (if c == 't' then 1 else 0);
    assert Count([c], 'T') == (if c == 'T' then 1 else 0);
    assert Count([d], 't') == (if d == 't' then 1 else 0);
    assert Count([d], 'T') == (if d == 'T' then 1 else 0);
  }

  /** A word with no t-letter has t-length (and t-exponent sum) zero, and conversely. */
  lemma {:induction false} TLenZero(w: seq<char>)
    ensures TLen(w) == 0 <==> forall i :: 0 <= i < |w| ==> !IsT(w[i])
  {
    if w != [] {
      TLenZero(w[1..]);
      assert forall i :: 1 <= i < |w| ==> w[i] == w[1..][i - 1];
    }
  }

  /** The t-shape of a word: its t-letters in order, the word with every a
      and A removed. */
  function TShape(w: seq<char>): (s: seq<char>)
    ensures |s| == TLen(w)
  {
    if w == [] then [] else (if IsT(w[0]) then [w[0]] else []) + TShape(w[1..])
  }

  /** The t-shape holds only t-letters and has the word's t-exponent sum. */
  lemma {:induction false} TShapeLetters(w: seq<char>)
    ensures forall i :: 0 <= i < |TShape(w)| ==> IsT(TShape(w)[i])
    ensures TExp(TShape(w)) == TExp(w)
  {
    if w != [] {
      TShapeLetters(w[1..]);
      var h := if IsT(w[0]) then [w[0]] else [];
      TConcat(h, TShape(w[1..]));
      assert [w[0]] + w[1..] == w;
      TConcat([w[0]], w[1..]);
      assert TExp(h) == TExp([w[0]]) by {
        assert [w[0]][1..] == [];
      }
    }
  }

  /** The pieces of w between its t-letters: the pieces `re.split('[t]', w)`
      gives ignoring case, one more than there are t-letters. */
  function Pieces(w: seq<char>): (ps: seq<seq<char>>)
    ensures |ps| == TLen(w) + 1
  {
    if w == [] then [[]]
    else
      var p := Pieces(w[1..]);
      if IsT(w[0]) then [[]] + p else [[w[0]] + p[0]] + p[1..]
  }

  /** The pieces joined again, with the letters of s between them. */
  function Join(ps: seq<seq<char>>, s: seq<char>): seq<char>
    requires |ps| == |s| + 1
  {
    if s == [] then ps[0] else ps[0] + [s[0]] + Join(ps[1..], s[1..])
  }

  /** Splitting loses nothing: the pieces joined by the t-letters give the
      word back. */
  lemma {:induction false} PiecesJoin(w: seq<char>)
    ensures Join(Pieces(w), TShape(w)) == w
  {
    if w != [] {
      var p := Pieces(w[1..]);
      PiecesJoin(w[1..]);
      if IsT(w[0]) {
        assert Pieces(w)[1..] == p;
      } else {
        var s := TShape(w[1..]);
        assert TShape(w) == s;
        if s == [] {
          assert Join(Pieces(w), s) == [w[0]] + p[0];
        } else {
          assert Pieces(w)[1..] == p[1..];
          assert Join(Pieces(w), s) == [w[0]] + p[0] + [s[0]] + Join(p[1..], s[1..]);
        }
      }
    }
  }

  /** No piece holds a t-letter. */
  lemma {:induction false} PiecesHaveNoT(w: seq<char>)
    ensures forall k, i :: 0 <= k < |Pieces(w)| && 0 <= i < |Pieces(w)[k]| ==> !IsT(Pieces(w)[k][i])
  {
    if w != [] {
      var p := Pieces(w[1..]);
      PiecesHaveNoT(w[1..]);
      if IsT(w[0]) {
        assert Pieces(w)[1..] == p;
      } else {
        forall k, i | 0 <= k < |Pieces(w)| && 0 <= i < |Pieces(w)[k]|
          ensures !IsT(Pieces(w)[k][i])
        {
          if k == 0 && i > 0 {
            assert Pieces(w)[0][i] == p[0][i - 1];
          } else if k > 0 {
            assert Pieces(w)[k] == p[k];
          }
        }
      }
    }
  }


  /** The signed length of an a-run: positive for a run of a, negative for a
      run of A. */
  function SignedLen(p: seq<char>): int
  {
    if p != [] && p[0] == 'a' then |p| else -|p|
  }

  /** The position of a t-letter exists exactly when the t-length is positive. */
  lemma TLenPositive(w: seq<char>, k: int)
    requires 0 <= k < |w| && IsT(w[k])
    ensures TLen(w) > 0
  {
    TLenZero(w);
  }

  /** A word is tight (freely reduced) when no letter is followed by its inverse. */
  predicate IsTight(w: seq<char>)
  {
    forall i :: 0 <= i < |w| - 1 ==> w[i] != Swap(w[i + 1])
  }

  /** One step of the left-to-right reduction: add the letter c to the tight
      accumulator, or cancel it against the accumulator's last letter. */
  function Push(acc: seq<char>, c: char): seq<char>
  {
    if acc != [] && acc[|acc| - 1] == Swap(c) then acc[..|acc| - 1] else acc + [c]
  }

  /** The free reduction of w, as `tighten` computes it in one left-to-right
      pass. Each cancellation removes a pair of letters, so the length never
      grows. */
  function Reduce(w: seq<char>): (r: seq<char>)
    ensures |r| <= |w|
    decreases |w|
  {
    if w == [] then [] else Push(Reduce(w[..|w| - 1]), w[|w| - 1])
  }

  /** Tightening removes letters in pairs: the reduction is the word less
      k cancelled pairs, so the two lengths have the same parity. */
  lemma {:induction false} ReduceParity(w: seq<char>) returns (k: nat)
    ensures |w| == |Reduce(w)| + 2 * k
    decreases |w|
  {
    if w == [] {
      k := 0;
    } else {
      var u := w[..|w| - 1];
      var acc := Reduce(u);
      k := ReduceParity(u);
      if acc != [] && acc[|acc| - 1] == Swap(w[|w| - 1]) {
        k := k + 1;
      }
    }
  }

  /** `tighten`: one pass over the word, growing and shrinking an accumulator. */
  method Tighten(word: seq<char>) returns (tWord: seq<char>)
    ensures tWord == Reduce(word)
    ensures IsTight(tWord)
    ensures TExp(tWord) == TExp(word)
  {
    tWord := [];
    for i := 0 to |word|
      invariant tWord == Reduce(word[..i])
    {
      assert word[..i + 1][..i] == word[..i];
      if tWord == [] {
        tWord := [word[i]];
      } else if tWord[|tWord| - 1] == Swap(word[i]) {
        tWord := tWord[..|tWord| - 1];
      } else {
        tWord := tWord + [word[i]];
      }
    }
    assert word[..|word|] == word;
    ReduceIsTight(word);
    ReduceTExp(word);
  }

  lemma PushTight(acc: seq<char>, c: char)
    requires IsTight(acc)
    ensures IsTight(Push(acc, c))
  {
  }

  /** The reduction never leaves a letter next to its inverse. */
  lemma {:induction false} ReduceIsTight(w: seq<char>)
    ensures IsTight(Reduce(w))
    decreases |w|
  {
    if w != [] {
      ReduceIsTight(w[..|w| - 1]);
      PushTight(Reduce(w[..|w| - 1]), w[|w| - 1]);
    }
  }

  /** A tight word is its own reduction. */
  lemma {:induction false} ReduceOfTight(w: seq<char>)
    requires IsTight(w)
    ensures Reduce(w) == w
    decreases |w|
  {
    if w != [] {
      var p := w[..|w| - 1];
      assert IsTight(p);
      ReduceOfTight(p);
      assert w == p + [w[|w| - 1]];
    }
  }

  /** Adding an a-letter never cancels back past a t-letter. */
  lemma PushKeepsPrefix(acc: seq<char>, c: char, k: nat)
    requires k < |acc| && IsT(acc[k]) && !IsT(c)
    ensures |Push(acc, c)| > k && Push(acc, c)[..k + 1] == acc[..k + 1]
  {
    if acc[|acc| - 1] == Swap(c) {
      assert k < |acc| - 1;
      assert acc[..|acc| - 1][..k + 1] == acc[..k + 1];
    } else {
      assert (acc + [c])[..k + 1] == acc[..k + 1];
    }
  }

  /** Tightening a tight word followed by a-letters keeps the word up to any
      of its t-letters: only a-letters cancel. */
  lemma {:induction false} ReduceKeepsPrefix(u: seq<char>, v: seq<char>, k: nat)
    requires IsTight(u) && k < |u| && IsT(u[k])
    requires forall i :: 0 <= i < |v| ==> !IsT(v[i])
    ensures |Reduce(u + v)| > k && Reduce(u + v)[..k + 1] == u[..k + 1]
    decreases |v|
  {
    if v == [] {
      assert u + v == u;
      ReduceOfTight(u);
    } else {
      var v' := v[..|v| - 1];
      assert (u + v)[..|u + v| - 1] == u + v';
      ReduceKeepsPrefix(u, v', k);
      var acc := Reduce(u + v');
      assert acc[k] == acc[..k + 1][k];
      PushKeepsPrefix(acc, v[|v| - 1], k);
    }
  }

  /** Tightening a tight word that ends with a t-letter, followed by
      a-letters, keeps that word and adds only a-letters after it. */
  lemma ReduceAfterT(u: seq<char>, v: seq<char>)
    requires IsTight(u) && u != [] && IsT(u[|u| - 1])
    requires forall i :: 0 <= i < |v| ==> !IsT(v[i])
    ensures |Reduce(u + v)| >= |u| && Reduce(u + v)[..|u|] == u
    ensures forall i :: |u| <= i < |Reduce(u + v)| ==> !IsT(Reduce(u + v)[i])
  {
    ReduceKeepsPrefix(u, v, |u| - 1);
    var r := Reduce(u + v);
    TLenZero(v);
    TConcat(u, v);
    ReduceTLen(u + v);
    assert r == u + r[|u|..];
    TConcat(u, r[|u|..]);
    TLenZero(r[|u|..]);
    forall i | |u| <= i < |r|
      ensures !IsT(r[i])
    {
      assert r[i] == r[|u|..][i - |u|];
    }
  }

  /** Every piece of a tight word is tight. */
  lemma TightSlice(w: seq<char>, a: nat, b: nat)
    requires IsTight(w) && a <= b <= |w|
    ensures IsTight(w[a..b])
  {
    forall i | 0 <= i < b - a - 1
      ensures w[a..b][i] != Swap(w[a..b][i + 1])
    {
      assert w[a..b][i] == w[a + i] && w[a..b][i + 1] == w[a + i + 1];
    }
  }

  /** A tight word without t-letters is a power of one a-letter, so its
      first letter is never the inverse of its last. */
  lemma {:induction false} TightPower(h: seq<char>)
    requires IsWord(h) && IsTight(h) && forall i :: 0 <= i < |h| ==> !IsT(h[i])
    ensures forall i :: 0 <= i < |h| ==> h[i] == h[0]
    decreases |h|
  {
    if |h| > 1 {
      var h' := h[..|h| - 1];
      TightPower(h');
      assert h[|h| - 2] == h'[|h| - 2] == h[0];
    }
  }

  /** `tighten` is idempotent. */
  lemma ReduceIdempotent(w: seq<char>)
    ensures Reduce(Reduce(w)) == Reduce(w)
  {
    ReduceIsTight(w);
    ReduceOfTight(Reduce(w));
  }

  /** Free reduction keeps the t-exponent sum: each cancellation removes a
      letter together with its inverse. */
  lemma {:induction false} ReduceTExp(w: seq<char>)
    ensures TExp(Reduce(w)) == TExp(w)
    decreases |w|
  {
    if w != [] {
      var p, c := w[..|w| - 1], w[|w| - 1];
      var acc := Reduce(p);
      ReduceTExp(p);
      assert w == p + [c];
      TConcat(p, [c]);
      if acc != [] && acc[|acc| - 1] == Swap(c) {
        assert acc == acc[..|acc| - 1] + [Swap(c)];
        TConcat(acc[..|acc| - 1], [Swap(c)]);
        SwapT(c);
      } else {
        TConcat(acc, [c]);
      }
    }
  }

  /** Free reduction never adds t-letters. */
  lemma {:induction false} ReduceTLen(w: seq<char>)
    ensures TLen(Reduce(w)) <= TLen(w)
    decreases |w|
  {
    if w != [] {
      var p, c := w[..|w| - 1], w[|w| - 1];
      var acc := Reduce(p);
      ReduceTLen(p);
      assert w == p + [c];
      TConcat(p, [c]);
      if acc != [] && acc[|acc| - 1] == Swap(c) {
        assert acc == acc[..|acc| - 1] + [Swap(c)];
        TConcat(acc[..|acc| - 1], [Swap(c)]);
        SwapT(c);
      } else {
        TConcat(acc, [c]);
      }
    }
  }

  /** Every letter of the reduction comes from the word. */
  lemma {:induction false} ReduceLetters(w: seq<char>)
    ensures forall i :: 0 <= i < |Reduce(w)| ==> Reduce(w)[i] in w
    decreases |w|
  {
    if w != [] {
      var p := w[..|w| - 1];
      ReduceLetters(p);
      assert forall c :: c in p ==> c in w;
    }
  }

  lemma ReduceIsWord(w: seq<char>)
    requires IsWord(w)
    ensures IsWord(Reduce(w))
  {
    ReduceLetters(w);
  }

  /** Reducing a prefix first does not change the reduction of the whole word. */
  lemma {:induction false} ReduceConcat(u: seq<char>, v: seq<char>)
    ensures Reduce(u + v) == Reduce(Reduce(u) + v)
    decreases |v|
  {
    if v == [] {
      assert u + v == u && Reduce(u) + v == Reduce(u);
      ReduceIdempotent(u);
    } else {
      var p, c := v[..|v| - 1], v[|v| - 1];
      ReduceConcat(u, p);
      assert (u + v)[..|u + v| - 1] == u + p;
      assert (Reduce(u) + v)[..|Reduce(u) + v| - 1] == Reduce(u) + p;
    }
  }

  /** On a tight accumulator, pushing a letter and then its inverse gives the
      accumulator back. */
  lemma PushCancel(r: seq<char>, c: char)
    requires IsTight(r)
    ensures Push(Push(r, c), Swap(c)) == r
  {
    SwapSwap(c);
    if r != [] && r[|r| - 1] == Swap(c) {
      var r0 := r[..|r| - 1];
      assert r0 == [] || r0[|r0| - 1] != c by {
        if r0 != [] {
          assert r[|r| - 2] != Swap(r[|r| - 1]);
        }
      }
      assert r0 + [Swap(c)] == r;
    } else {
      assert (r + [c])[..|r|] == r;
    }
  }

  /** A letter followed by its inverse cancels at the end of a word. */
  lemma ReducePair(u: seq<char>, c: char)
    ensures Reduce(u + [c, Swap(c)]) == Reduce(u)
  {
    var w := u + [c, Swap(c)];
    assert w[..|w| - 1] == u + [c];
    assert (u + [c])[..|u|] == u;
    ReduceIsTight(u);
    PushCancel(Reduce(u), c);
  }

  /** A letter followed by its inverse cancels anywhere in a word. */
  lemma CancelPair(u: seq<char>, c: char, v: seq<char>)
    ensures Reduce(u + [c, Swap(c)] + v) == Reduce(u + v)
  {
    ReduceConcat(u + [c, Swap(c)], v);
    ReducePair(u, c);
    ReduceConcat(u, v);
  }

  /** The inverse of a word: reversed, with every letter swapped
      (Python's `word[::-1].swapcase()`). */
  function Inverse(w: seq<char>): (r: seq<char>)
    ensures |r| == |w|
    ensures forall i :: 0 <= i < |w| ==> r[i] == Swap(w[|w| - 1 - i])
  {
    if w == [] then [] else Inverse(w[1..]) + [Swap(w[0])]
  }

  lemma {:induction false} InverseConcat(u: seq<char>, v: seq<char>)
    ensures Inverse(u + v) == Inverse(v) + Inverse(u)
    decreases |u|
  {
    if u == [] {
      assert u + v == v;
    } else {
      assert (u + v)[1..] == u[1..] + v;
      InverseConcat(u[1..], v);
    }
  }

  /** `inverse` is an involution. */
  lemma {:induction false} InverseInverse(w: seq<char>)
    ensures Inverse(Inverse(w)) == w
    decreases |w|
  {
    if w != [] {
      InverseInverse(w[1..]);
      InverseConcat(Inverse(w[1..]), [Swap(w[0])]);
      SwapSwap(w[0]);
      assert Inverse([Swap(w[0])]) == [w[0]];
      assert w == [w[0]] + w[1..];
    }
  }

  /** The inverse counts the swapped letters. */
  lemma {:induction false} InverseCount(w: seq<char>, c: char)
    ensures Count(Inverse(w), c) == Count(w, Swap(c))
    decreases |w|
  {
    if w != [] {
      InverseCount(w[1..], c);
      CountConcat(Inverse(w[1..]), [Swap(w[0])], c);
      SwapSwap(c);
      SwapSwap(w[0]);
    }
  }

  /** Inverting keeps the t-length and negates the t-exponent sum. */
  lemma InverseT(w: seq<char>)
    ensures TLen(Inverse(w)) == TLen(w)
    ensures TExp(Inverse(w)) == -TExp(w)
  {
    InverseCount(w, 't');
    InverseCount(w, 'T');
  }

  /** A word times its inverse reduces to the empty word. */
  lemma {:induction false} ReduceWordInverse(w: seq<char>)
    ensures Reduce(w + Inverse(w)) == []
    decreases |w|
  {
    if w != [] {
      var p, c := w[..|w| - 1], w[|w| - 1];
      assert w == p + [c];
      InverseConcat(p, [c]);
      assert Inverse([c]) == [Swap(c)];
      assert w + Inverse(w) == p + [c, Swap(c)] + Inverse(p);
      CancelPair(p, c, Inverse(p));
      ReduceWordInverse(p);
    }
  }

  /** `s` repeated n times: Python's `s * n` for a one-letter string. */
  function Repeat(c: char, n: nat): (r: seq<char>)
    ensures |r| == n
  {
    if n == 0 then [] else [c] + Repeat(c, n - 1)
  }

  lemma {:induction false} RepeatLetters(c: char, n: nat)
    ensures forall i :: 0 <= i < n ==> Repeat(c, n)[i] == c
  {
    if n > 0 {
      RepeatLetters(c, n - 1);
      assert forall i :: 1 <= i < n ==> Repeat(c, n)[i] == Repeat(c, n - 1)[i - 1];
    }
  }

  function Abs(x: int): nat { if x < 0 then -x else x }
}
