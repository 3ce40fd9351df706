/** Vertex->Edge: every edge is appended to the lists of both its endpoints, each list is
    then put in angular order around its vertex, and the lists are concatenated into CSR form. */
module VertexEdge {
  import opened Csr
  import opened EdgeNumbering
  import opened VertexIncidence
  import opened EdgeBuilders

  /** `lists[v].push(e)` on a vector of per-vertex lists. */
  function Push(lists: seq<seq<nat>>, v: nat, e: nat): (r: seq<seq<nat>>)
    requires v < |lists|
    ensures |r| == |lists| && r[v] == lists[v] + [e]
    ensures forall v' | 0 <= v' < |lists| && v' != v :: r[v'] == lists[v']
  {
    lists[v := lists[v] + [e]]
  }

  /** After the first `e` edges every vertex's list holds exactly its incident edges among them. */
  ghost predicate Collected(edges: seq<Pair>, lists: seq<seq<nat>>, e: nat)
    requires e <= |edges|
  {
    forall v | 0 <= v < |lists| :: lists[v] == EdgesAt(edges, v, e)
  }

  /** Pushing edge `e` onto the lists of its two endpoints, lower first, extends the collection by one edge. */
  lemma CollectedStep(edges: seq<Pair>, lists: seq<seq<nat>>, e: nat)
    requires e < |edges| && edges[e].0 < |lists| && edges[e].1 < |lists|
    requires Collected(edges, lists, e)
    ensures Collected(edges, Push(Push(lists, edges[e].0, e), edges[e].1, e), e + 1)
  {
    var next := e + 1;
    var lists' := Push(Push(lists, edges[e].0, e), edges[e].1, e);
    forall v | 0 <= v < |lists'| ensures lists'[v] == EdgesAt(edges, v, next) {
      assert EdgesAt(edges, v, next) == EdgesAt(edges, v, e)
        + (if edges[e].0 == v then [e] else []) + (if edges[e].1 == v then [e] else []);
    }
  }

  /** The collecting pass: walking the edges in id order, each edge is pushed onto the
      list of its lower and then of its higher vertex. */
  method CollectEdges(tris: seq<nat>, edgeVertex: Adjacency<EdgeVertexTag>, numVertices: nat)
    returns (lists: seq<seq<nat>>)
    requires CornersInRange(tris, numVertices)
    requires BuiltEdgeVertex(tris, edgeVertex)
    ensures |lists| == numVertices
    ensures forall v | 0 <= v < numVertices :: lists[v] == EdgesAt(EdgeList(tris), v, NumEdges(tris))
  {
    ghost var edges := EdgeList(tris);
    ListedEdgesFromTris(tris, NumLocal(tris), numVertices);
    var numEdges := Len(edgeVertex);
    lists := seq(numVertices, _ => []);
    for e := 0 to numEdges
      invariant |lists| == numVertices
      invariant Collected(edges, lists, e)
    {
      ValidRowsInRange(edgeVertex, e);
      var verts := Get(edgeVertex, e);
      assert verts[0] == edges[e].0 && verts[1] == edges[e].1;
      CollectedStep(edges, lists, e);
      lists := Push(Push(lists, verts[0], e), verts[1], e);
    }
  }

  /** The angular sort: each vertex's list is replaced by some reordering of itself. The
      sort keys are floating-point angles, so the model only fixes that each new list is a
      permutation of the old one. */
  method SortRows(lists: seq<seq<nat>>) returns (sorted: seq<seq<nat>>)
    ensures |sorted| == |lists|
    ensures forall v | 0 <= v < |lists| :: multiset(sorted[v]) == multiset(lists[v])
  {
    sorted := lists;
    for v := 0 to |lists|
      invariant |sorted| == |lists|
      invariant forall v' | 0 <= v' < |lists| :: multiset(sorted[v']) == multiset(lists[v'])
    {
      var edges := sorted[v];
      var reordered :| multiset(reordered) == multiset(edges);
      sorted := sorted[v := reordered];
    }
  }

  /** The first `n` lists, concatenated. */
  function Flat(lists: seq<seq<nat>>, n: nat): seq<nat>
    requires n <= |lists|
  {
    if n == 0 then [] else Flat(lists, n - 1) + lists[n - 1]
  }

  /** Concatenating further only appends, so list `v` sits right after the lists before it. */
  lemma {:induction false} FlatRow(lists: seq<seq<nat>>, v: nat, n: nat)
    requires v < n <= |lists|
    ensures |Flat(lists, v)| + |lists[v]| <= |Flat(lists, n)|
    ensures Flat(lists, n)[|Flat(lists, v)|..|Flat(lists, v)| + |lists[v]|] == lists[v]
  {
    if v + 1 < n {
      FlatRow(lists, v, n - 1);
      assert Flat(lists, n)[..|Flat(lists, n - 1)|] == Flat(lists, n - 1);
    }
  }

  /** The concatenating pass: row `v` of the result is `lists[v]`, and its offset is the
      total length of the lists before it. */
  method Concat(lists: seq<seq<nat>>) returns (offsets: seq<nat>, indices: seq<nat>)
    ensures |offsets| == |lists| + 1
    ensures forall v | 0 <= v <= |lists| :: offsets[v] == |Flat(lists, v)|
    ensures indices == Flat(lists, |lists|)
  {
    offsets := [];
    indices := [];
    for v := 0 to |lists|
      invariant |offsets| == v && indices == Flat(lists, v)
      invariant forall v' | 0 <= v' < v :: offsets[v'] == |Flat(lists, v')|
    {
      offsets := offsets + [|indices|];
      indices := indices + lists[v];
    }
    offsets := offsets + [|indices|];
  }

  /** Lists with as many entries as the incidence lists have offsets that are endpoint counts. */
  lemma {:induction false} FlatLenIsEndsBelow(edges: seq<Pair>, lists: seq<seq<nat>>, v: nat)
    requires v <= |lists|
    requires forall u | 0 <= u < |lists| :: |lists[u]| == |EdgesAt(edges, u, |edges|)|
    ensures |Flat(lists, v)| == EndsBelow(edges, v, |edges|)
  {
    if v == 0 {
      EndsBelowZero(edges, |edges|);
    } else {
      FlatLenIsEndsBelow(edges, lists, v - 1);
      EndsBelowStep(edges, v - 1, |edges|);
    }
  }

  /** Concatenating lists whose lengths are the endpoint counts gives a well-formed relation
      whose offsets count the endpoints on lower vertices and whose rows are the lists. */
  lemma {:induction false} ConcatIsRelation(edges: seq<Pair>, lists: seq<seq<nat>>, adj: Adjacency<VertexEdgeTag>)
    requires forall e | 0 <= e < |edges| :: edges[e].0 < |lists| && edges[e].1 < |lists|
    requires forall u | 0 <= u < |lists| :: |lists[u]| == |EdgesAt(edges, u, |edges|)|
    requires |adj.offsets| == |lists| + 1 && adj.indices == Flat(lists, |lists|)
    requires forall v | 0 <= v <= |lists| :: adj.offsets[v] == |Flat(lists, v)|
    ensures Valid(adj) && Len(adj) == |lists|
    ensures forall v | 0 <= v <= |lists| :: adj.offsets[v] == EndsBelow(edges, v, |edges|)
    ensures |adj.indices| == 2 * |edges|
    ensures forall v | 0 <= v < |lists| :: RowInRange(adj, v) && Get(adj, v) == lists[v]
  {
    forall v | 0 <= v <= |lists| ensures adj.offsets[v] == EndsBelow(edges, v, |edges|) {
      FlatLenIsEndsBelow(edges, lists, v);
    }
    EndsBelowAll(edges, |lists|, |edges|);
    EndsBelowZero(edges, |edges|);
    forall v, w | 0 <= v <= w <= |lists| ensures adj.offsets[v] <= adj.offsets[w] {
      EndsBelowMonotone(edges, v, w, |edges|);
    }
    forall v | 0 <= v < |lists| ensures RowInRange(adj, v) && Get(adj, v) == lists[v] {
      FlatRow(lists, v, |lists|);
      FlatLenIsEndsBelow(edges, lists, v + 1);
    }
  }

  /** Vertex->Edge: row `v` holds every edge incident to `v`, once per endpoint, in some
      order (the angular order around `v`); the offsets count the endpoints on lower
      vertices, and the rows hold two entries per edge in all. */
  method BuildVertexEdge(tris: seq<nat>, numVertices: nat) returns (adj: Adjacency<VertexEdgeTag>)
    requires CornersInRange(tris, numVertices)
    ensures Valid(adj) && Len(adj) == numVertices
    ensures forall v | 0 <= v <= numVertices :: adj.offsets[v] == EndsBelow(EdgeList(tris), v, NumEdges(tris))
    ensures |adj.indices| == 2 * NumEdges(tris)
    ensures forall v | 0 <= v < numVertices ::
      RowInRange(adj, v) && multiset(Get(adj, v)) == multiset(EdgesAt(EdgeList(tris), v, NumEdges(tris)))
  {
    ghost var edges := EdgeList(tris);
    var edgeVertex := BuildEdgeVertex(tris);
    var lists := CollectEdges(tris, edgeVertex, numVertices);
    var sorted := SortRows(lists);
    forall u | 0 <= u < |sorted| ensures |sorted[u]| == |EdgesAt(edges, u, |edges|)| {
      assert |multiset(sorted[u])| == |multiset(lists[u])|;
    }
    var offsets, indices := Concat(sorted);
    adj := Adjacency(offsets, indices);
    ListedEdgesFromTris(tris, NumLocal(tris), numVertices);
    ConcatIsRelation(edges, sorted, adj);
  }
}
