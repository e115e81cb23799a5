/** The turn graph of a word: one vertex per t-letter (a turn), each with the
    signed length of the a-run at the turn and a type from the two t-letters
    around it, and an edge j -> i whenever the t-letter closing turn j-1 is the
    inverse of the t-letter of turn i. The graph is kept as a record holding
    its edge list; `dual_edge` pairs edges up and `dual_edge_basis` keeps one
    edge of every pair. */
module TurnGraphs {
  import opened Words

  type Edge = (int, int)

  datatype TurnGraph = TurnGraph(nv: nat, edges: seq<Edge>, degree: seq<int>, types: seq<int>)

  /** The a-run at turn i of a word with nv t-letters: the piece before the
      i-th t-letter, and for turn 0 the piece before the first t-letter
      followed by the piece after the last one. */
  function Turn(g: seq<char>, i: nat): seq<char>
    requires i < TLen(g)
  {
    if i == 0 then Pieces(g)[0] + Pieces(g)[TLen(g)] else Pieces(g)[i]
  }

  /** The turn before turn i, cyclically. */
  function Prev(i: int, nv: int): int
    requires nv > 0
  {
    (i - 1) % nv
  }

  /** The edge test of `turn_graph`: j -> i when the letter of turn i,
      inverted, is the letter that closes turn j-1. */
  predicate IsTurnEdge(shape: seq<char>, e: Edge)
  {
    var nv := |shape|;
    0 <= e.0 < nv && 0 <= e.1 < nv && Swap(shape[e.1]) == shape[Prev(e.0, nv)]
  }

  predicate NoDup(s: seq<Edge>)
  {
    forall a, b :: 0 <= a < b < |s| ==> s[a] != s[b]
  }

  /** `dual_edge`: the edge (j+1, i-1) modulo nv paired with (i, j). */
  function DualEdge(e: Edge, nv: int): (d: Edge)
    requires nv > 0
    ensures 0 <= d.0 < nv && 0 <= d.1 < nv
  {
    ((e.1 + 1) % nv, (e.0 - 1) % nv)
  }

  /** The turn before x, for x in [0, n). */
  lemma PrevInRange(x: int, n: int)
    requires 0 <= x < n
    ensures (x - 1) % n == if x == 0 then n - 1 else x - 1
  {
    if x == 0 {
      assert -1 == (-1) * n + (n - 1);
    }
  }

  /** The turn after x, for x in [0, n). */
  lemma NextInRange(x: int, n: int)
    requires 0 <= x < n
    ensures (x + 1) % n == if x == n - 1 then 0 else x + 1
  {
    if x == n - 1 {
      assert n == 1 * n + 0;
    }
  }

  /** Pairing is an involution on the edges with both ends in [0, nv). */
  lemma DualDual(e: Edge, nv: int)
    requires nv > 0 && 0 <= e.0 < nv && 0 <= e.1 < nv
    ensures DualEdge(DualEdge(e, nv), nv) == e
  {
    var d := DualEdge(e, nv);
    PrevInRange(e.0, nv);
    NextInRange(e.1, nv);
    PrevInRange(d.0, nv);
    NextInRange(d.1, nv);
  }

  /** The edge test is closed under pairing: the dual of an edge of the turn
      graph is an edge too. */
  lemma DualIsEdge(shape: seq<char>, e: Edge)
    requires IsTurnEdge(shape, e)
    ensures IsTurnEdge(shape, DualEdge(e, |shape|))
  {
    var nv := |shape|;
    var d := DualEdge(e, nv);
    NextInRange(e.1, nv);
    PrevInRange(d.0, nv);
    assert Prev(d.0, nv) == e.1;
    SwapSwap(shape[e.1]);
  }

  /** A graph as `turn_graph` leaves it: one degree and one type per vertex,
      and its edges, without repeats, closed under pairing. */
  predicate Valid(gamma: TurnGraph)
  {
    |gamma.degree| == gamma.nv && |gamma.types| == gamma.nv && NoDup(gamma.edges)
    && (forall e :: e in gamma.edges ==> 0 <= e.0 < gamma.nv && 0 <= e.1 < gamma.nv)
    && (forall e :: e in gamma.edges ==> DualEdge(e, gamma.nv) in gamma.edges)
  }

  /** The type of a turn from the t-letter before it (p) and its own (c):
      0 for tt or TT, 1 for tT, 2 for Tt. */
  method TurnType(p: char, c: char) returns (ty: int)
    requires IsT(p) && IsT(c)
    ensures ty == 0 <==> p == c
    ensures ty == 1 <==> p == 't' && c == 'T'
    ensures ty == 2 <==> p == 'T' && c == 't'
  {
    if p == c {
      ty := 0;
    } else if p == 't' {
      ty := 1;
    } else {
      ty := 2;
    }
  }

  /** `turn_graph`: degrees, types and edges of the turn graph of g. */
  method BuildTurnGraph(g: seq<char>) returns (gamma: TurnGraph)
    requires IsWord(g)
    ensures Valid(gamma)
    ensures gamma.nv == TLen(g)
    ensures forall i :: 0 <= i < gamma.nv ==> gamma.degree[i] == SignedLen(Turn(g, i))
    ensures forall i :: 0 <= i < gamma.nv ==>
      var p, c := TShape(g)[Prev(i, gamma.nv)], TShape(g)[i];
      (gamma.types[i] == 0 <==> p == c) && (gamma.types[i] == 1 <==> p == 't' && c == 'T')
      && (gamma.types[i] == 2 <==> p == 'T' && c == 't')
    ensures forall e :: e in gamma.edges <==> IsTurnEdge(TShape(g), e)
  {
    var turns := Pieces(g);
    turns := turns[0 := turns[0] + turns[|turns| - 1]];
    var nv := |turns| - 1;
    // turn degrees
    var degree := [];
    for k := 0 to nv
      invariant |degree| == k
      invariant forall i :: 0 <= i < k ==> degree[i] == SignedLen(Turn(g, i))
    {
      var x := turns[k];
      if |x| == 0 {
        degree := degree + [0];
      } else if x[0] == 'a' {
        degree := degree + [|x|];
      } else {
        degree := degree + [-|x|];
      }
    }
    var tShape := TShape(g);
    TShapeLetters(g);
    // turn types
    var types := [];
    for i := 0 to nv
      invariant |types| == i
      invariant forall k :: 0 <= k < i ==>
        var p, c := tShape[Prev(k, nv)], tShape[k];
        (types[k] == 0 <==> p == c) && (types[k] == 1 <==> p == 't' && c == 'T')
        && (types[k] == 2 <==> p == 'T' && c == 't')
    {
      var i1 := (i - 1) % nv;
      var ty := TurnType(tShape[i1], tShape[i]);
      types := types + [ty];
    }
    // edges
    var edges: seq<Edge> := [];
    for i := 0 to nv
      invariant NoDup(edges)
      invariant forall e :: e in edges ==> e.1 < i
      invariant forall e :: e in edges <==> IsTurnEdge(tShape, e) && e.1 < i
    {
      for j := 0 to nv
        invariant NoDup(edges)
        invariant forall e :: e in edges ==> e.1 < i || (e.1 == i && e.0 < j)
        invariant forall e :: e in edges <==> IsTurnEdge(tShape, e) && (e.1 < i || (e.1 == i && e.0 < j))
      {
        var j1 := (j - 1) % nv;
        if Swap(tShape[i]) == tShape[j1] {
          edges := edges + [(j, i)];
        }
      }
    }
    forall e | e in edges
      ensures DualEdge(e, nv) in edges
    {
      DualIsEdge(tShape, e);
    }
    gamma := TurnGraph(nv, edges, degree, types);
  }

  /** The position of the first occurrence of x in s. */
  function IndexOf(s: seq<Edge>, x: Edge): (p: nat)
    requires x in s
    ensures p < |s| && s[p] == x && x !in s[..p]
  {
    if s[0] == x then 0 else 1 + IndexOf(s[1..], x)
  }

  /** The state of the walk of `dual_edge_basis` with cursor i over the list
      E: E holds edges of the graph without repeats; every edge behind the
      cursor that is not its own dual has had its dual removed; and every edge
      of the graph is still in E or has its dual behind the cursor. */
  predicate BasisInv(gamma: TurnGraph, E: seq<Edge>, i: int)
  {
    Valid(gamma) && 0 <= i <= |E| && NoDup(E)
    && (forall e :: e in E ==> e in gamma.edges)
    && (E != [] ==> gamma.nv > 0)
    && (forall a :: 0 <= a < i && DualEdge(E[a], gamma.nv) != E[a] ==> DualEdge(E[a], gamma.nv) !in E)
    && (forall e :: e in gamma.edges ==> e in E || DualEdge(e, gamma.nv) in E[..i])
  }

  lemma BasisStart(gamma: TurnGraph)
    requires Valid(gamma)
    ensures BasisInv(gamma, gamma.edges, 0)
  {
    if gamma.edges != [] {
      assert gamma.edges[0] in gamma.edges;
    }
  }

  /** A self-dual edge at the cursor stays. */
  lemma BasisKeep(gamma: TurnGraph, E: seq<Edge>, i: int)
    requires BasisInv(gamma, E, i) && i < |E| && DualEdge(E[i], gamma.nv) == E[i]
    ensures BasisInv(gamma, E, i + 1)
  {
    assert E[..i + 1] == E[..i] + [E[i]];
  }

  /** Removing the entry at p from a list without repeats removes exactly
      that edge and leaves a list without repeats. */
  lemma RemoveAt(E: seq<Edge>, p: nat)
    requires NoDup(E) && p < |E|
    ensures NoDup(E[..p] + E[p + 1..])
    ensures forall x :: x in E[..p] + E[p + 1..] <==> x in E && x != E[p]
  {
    var E' := E[..p] + E[p + 1..];
    forall a, b | 0 <= a < b < |E'|
      ensures E'[a] != E'[b]
    {
      var a' := if a < p then a else a + 1;
      var b' := if b < p then b else b + 1;
      assert E'[a] == E[a'] && E'[b] == E[b'];
    }
    forall x
      ensures x in E' <==> x in E && x != E[p]
    {
      if x in E {
        var k :| 0 <= k < |E| && E[k] == x;
        if k < p {
          assert E'[k] == x;
        } else if k > p {
          assert E'[k - 1] == x;
        }
      }
      if x in E' {
        var k :| 0 <= k < |E'| && E'[k] == x;
        var k' := if k < p then k else k + 1;
        assert E[k'] == x && k' != p;
      }
    }
  }

  /** Removing an entry after position i leaves the entries up to i. */
  lemma RemoveAfter(E: seq<Edge>, p: nat, i: nat)
    requires i < p < |E|
    ensures (E[..p] + E[p + 1..])[..i + 1] == E[..i + 1]
    ensures forall a :: 0 <= a <= i ==> (E[..p] + E[p + 1..])[a] == E[a]
  {
  }

  /** The dual of a non-self-dual edge at the cursor is in the list after
      the cursor: the removal finds it, and the walk skips no edge. */
  lemma DualAhead(gamma: TurnGraph, E: seq<Edge>, i: int)
    requires BasisInv(gamma, E, i) && i < |E| && DualEdge(E[i], gamma.nv) != E[i]
    ensures DualEdge(E[i], gamma.nv) in E && i < IndexOf(E, DualEdge(E[i], gamma.nv))
  {
    var nv := gamma.nv;
    var e := E[i];
    var d := DualEdge(e, nv);
    DualDual(e, nv);
    assert e !in E[..i];
    assert d in E;
  }

  /** After the removal, the edges behind the advanced cursor still have
      their duals removed. */
  lemma ProcessedStep(E: seq<Edge>, p: nat, i: nat, nv: int)
    requires nv > 0 && i < p < |E| && NoDup(E) && DualEdge(E[i], nv) == E[p]
    requires forall a :: 0 <= a < i && DualEdge(E[a], nv) != E[a] ==> DualEdge(E[a], nv) !in E
    ensures var E' := E[..p] + E[p + 1..];
      forall a :: 0 <= a < i + 1 && DualEdge(E'[a], nv) != E'[a] ==> DualEdge(E'[a], nv) !in E'
  {
    var E' := E[..p] + E[p + 1..];
    RemoveAfter(E, p, i);
    RemoveAt(E, p);
  }

  /** After the removal, every edge of the graph is still there or has its
      dual behind the advanced cursor. */
  lemma CoveredStep(edges: seq<Edge>, E: seq<Edge>, p: nat, i: nat, nv: int)
    requires nv > 0 && i < p < |E| && NoDup(E) && DualEdge(E[i], nv) == E[p]
    requires 0 <= E[i].0 < nv && 0 <= E[i].1 < nv
    requires forall x :: x in edges ==> x in E || DualEdge(x, nv) in E[..i]
    ensures var E' := E[..p] + E[p + 1..];
      forall x :: x in edges ==> x in E' || DualEdge(x, nv) in E'[..i + 1]
  {
    var E' := E[..p] + E[p + 1..];
    RemoveAfter(E, p, i);
    RemoveAt(E, p);
    assert E'[..i + 1] == E[..i] + [E[i]];
    forall x | x in edges
      ensures x in E' || DualEdge(x, nv) in E'[..i + 1]
    {
      if x == E[p] {
        DualDual(E[i], nv);
      }
    }
  }

  /** Removing that dual keeps the state, with the cursor one further on. */
  lemma BasisRemove(gamma: TurnGraph, E: seq<Edge>, i: int, p: nat)
    requires BasisInv(gamma, E, i) && i < |E| && DualEdge(E[i], gamma.nv) != E[i]
    requires i < p < |E| && E[p] == DualEdge(E[i], gamma.nv)
    ensures BasisInv(gamma, E[..p] + E[p + 1..], i + 1)
  {
    var nv := gamma.nv;
    var E' := E[..p] + E[p + 1..];
    RemoveAt(E, p);
    assert E[i] in gamma.edges;
    ProcessedStep(E, p, i, nv);
    CoveredStep(gamma.edges, E, p, i, nv);
  }

  /** `dual_edge_basis`: walk the edge list and, for every edge met that is
      not its own dual, remove its dual from the list, the walk going on over
      the shortened list. What is left holds no edge together with a
      different dual, keeps every self-dual edge, and holds each removed edge's
      dual. */
  method DualEdgeBasis(gamma: TurnGraph) returns (basis: seq<Edge>)
    requires Valid(gamma)
    ensures NoDup(basis)
    ensures forall e :: e in basis ==> e in gamma.edges
    ensures forall e :: e in basis && DualEdge(e, gamma.nv) != e ==> DualEdge(e, gamma.nv) !in basis
    ensures forall e :: e in gamma.edges && DualEdge(e, gamma.nv) == e ==> e in basis
    ensures forall e :: e in gamma.edges ==> e in basis || DualEdge(e, gamma.nv) in basis
  {
    var E := gamma.edges;
    var nv := gamma.nv;
    var i := 0;
    BasisStart(gamma);
    while i < |E|
      invariant BasisInv(gamma, E, i)
      decreases |E| - i
    {
      var e := E[i];
      var dualE := DualEdge(e, nv);
      if e != dualE {
        DualAhead(gamma, E, i);
        var p := IndexOf(E, dualE);
        BasisRemove(gamma, E, i, p);
        E := E[..p] + E[p + 1..];
      } else {
        BasisKeep(gamma, E, i);
      }
      i := i + 1;
    }
    assert E[..i] == E;
    basis := E;
  }
}
