/**
 * The adjacency part of the generator's state as values: the edge set,
 * the per-node neighbour lists (`adj_list`, a `defaultdict(list)` in Python
 * and a lazily filled `TreeMap` of `ArrayList`s in Java) and the invariant
 * that ties them together.
 */
module Graph {
  import opened Edges
  import opened Lists

  /** The neighbour list of `i`; a node without an entry has none. */
  function Neighbours(adj: map<int, seq<int>>, i: int): seq<int>
  {
    if i in adj then adj[i] else []
  }

  /** `adj_list[a].append(b)`, creating the list when it is missing. */
  function Append(adj: map<int, seq<int>>, a: int, b: int): (r: map<int, seq<int>>)
    ensures Neighbours(r, a) == Neighbours(adj, a) + [b]
    ensures forall i :: i != a ==> Neighbours(r, i) == Neighbours(adj, i)
  {
    adj[a := Neighbours(adj, a) + [b]]
  }

  /** `adj_list[a].remove(b)`: drops the first occurrence of `b`. */
  function Drop(adj: map<int, seq<int>>, a: int, b: int): (r: map<int, seq<int>>)
    requires b in Neighbours(adj, a)
    ensures Neighbours(r, a) == RemoveValue(Neighbours(adj, a), b)
    ensures forall i :: i != a ==> Neighbours(r, i) == Neighbours(adj, i)
  {
    adj[a := RemoveValue(Neighbours(adj, a), b)]
  }

  /**
   * The edge set and the neighbour lists describe the same simple graph on
   * `[0, n)`: every edge is canonical and listed at both endpoints, every
   * listed neighbour comes from an edge, and no list repeats a node.
   */
  ghost predicate Linked(n: nat, edges: set<Edge>, adj: map<int, seq<int>>)
  {
    && (forall i :: i in adj ==> 0 <= i < n)
    && (forall a, b :: Edge(a, b) in edges ==> 0 <= a < b < n)
    && (forall a, b :: Edge(a, b) in edges ==> b in Neighbours(adj, a) && a in Neighbours(adj, b))
    && (forall i, j :: j in Neighbours(adj, i) ==> Canonicalize(i, j) in edges)
    && (forall i {:trigger NoDup(Neighbours(adj, i))} :: NoDup(Neighbours(adj, i)))
  }

  /** A listed neighbour is another node of the graph, joined by an edge. */
  lemma NeighbourIsNode(n: nat, edges: set<Edge>, adj: map<int, seq<int>>, i: int, j: int)
    requires Linked(n, edges, adj) && j in Neighbours(adj, i)
    ensures 0 <= i < n && 0 <= j < n && i != j
    ensures Canonicalize(i, j) in edges
  {
    var e := Canonicalize(i, j);
    assert e in edges;
  }

  /** In a linked state, `b` is a neighbour of `a` exactly when the edge is present. */
  lemma NeighbourIffEdge(n: nat, edges: set<Edge>, adj: map<int, seq<int>>, a: int, b: int)
    requires Linked(n, edges, adj) && a < b
    ensures b in Neighbours(adj, a) <==> Edge(a, b) in edges
    ensures a in Neighbours(adj, b) <==> Edge(a, b) in edges
  {
    assert Canonicalize(a, b) == Edge(a, b) == Canonicalize(b, a);
  }

  /** `_add_edge`'s list updates keep the state linked. */
  lemma AddKeepsLinked(n: nat, edges: set<Edge>, adj: map<int, seq<int>>, e: Edge)
    requires Linked(n, edges, adj)
    requires 0 <= e.a < e.b < n && e !in edges
    ensures Linked(n, edges + {e}, Append(Append(adj, e.a, e.b), e.b, e.a))
  {
    var adj' := Append(Append(adj, e.a, e.b), e.b, e.a);
    var edges' := edges + {e};
    NeighbourIffEdge(n, edges, adj, e.a, e.b);
    forall i, j | j in Neighbours(adj', i) ensures Canonicalize(i, j) in edges' {
      if j !in Neighbours(adj, i) {
        assert (i == e.a && j == e.b) || (i == e.b && j == e.a);
      }
    }
    forall i ensures NoDup(Neighbours(adj', i)) {
      var s := Neighbours(adj, i);
      if i == e.a || i == e.b {
        var x := if i == e.a then e.b else e.a;
        assert Neighbours(adj', i) == s + [x];
        assert x !in s;
        NoDupAppend(s, x);
      }
    }
  }

  /** `_remove_edge`'s list updates keep the state linked. */
  lemma RemoveKeepsLinked(n: nat, edges: set<Edge>, adj: map<int, seq<int>>, e: Edge)
    requires Linked(n, edges, adj) && e in edges
    ensures e.b in Neighbours(adj, e.a)
    ensures e.a in Neighbours(Drop(adj, e.a, e.b), e.b)
    ensures Linked(n, edges - {e}, Drop(Drop(adj, e.a, e.b), e.b, e.a))
  {
    var adj1 := Drop(adj, e.a, e.b);
    var adj' := Drop(adj1, e.b, e.a);
    var edges' := edges - {e};
    RemoveValueNoDup(Neighbours(adj, e.a), e.b);
    RemoveValueNoDup(Neighbours(adj, e.b), e.a);
    assert Neighbours(adj', e.a) == RemoveValue(Neighbours(adj, e.a), e.b);
    assert Neighbours(adj', e.b) == RemoveValue(Neighbours(adj, e.b), e.a);
    forall a, b | Edge(a, b) in edges' ensures b in Neighbours(adj', a) && a in Neighbours(adj', b) {
    }
    forall i, j | j in Neighbours(adj', i) ensures Canonicalize(i, j) in edges' {
      assert j in Neighbours(adj, i);
      if i == e.a { assert j != e.b; }
      if i == e.b { assert j != e.a; }
    }
  }

  /**
   * Round trip on the lists: appending both orientations of a new edge and
   * then removing them gives every node its old neighbour list back. In a
   * linked state the requirements say that the edge is absent.
   */
  lemma AddThenDropRestores(adj: map<int, seq<int>>, e: Edge)
    requires e.a != e.b
    requires e.b !in Neighbours(adj, e.a) && e.a !in Neighbours(adj, e.b)
    ensures var added := Append(Append(adj, e.a, e.b), e.b, e.a);
            e.b in Neighbours(added, e.a) && e.a in Neighbours(Drop(added, e.a, e.b), e.b) &&
            forall i :: Neighbours(Drop(Drop(added, e.a, e.b), e.b, e.a), i) == Neighbours(adj, i)
  {
    var sa, sb := Neighbours(adj, e.a), Neighbours(adj, e.b);
    var added := Append(Append(adj, e.a, e.b), e.b, e.a);
    assert Neighbours(added, e.a) == sa + [e.b];
    assert Neighbours(added, e.b) == sb + [e.a];
    var dropped := Drop(added, e.a, e.b);
    AppendThenRemove(sa, e.b);
    assert Neighbours(dropped, e.a) == sa;
    assert Neighbours(dropped, e.b) == sb + [e.a];
    var restored := Drop(dropped, e.b, e.a);
    AppendThenRemove(sb, e.a);
    assert Neighbours(restored, e.b) == sb;
    assert Neighbours(restored, e.a) == sa;
    forall i ensures Neighbours(restored, i) == Neighbours(adj, i) {
      if i != e.a && i != e.b {
        assert Neighbours(restored, i) == Neighbours(dropped, i) == Neighbours(added, i);
      }
    }
  }
}
