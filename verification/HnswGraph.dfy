/** The layered proximity graph of crates/mem-index/src/hnsw.rs and its searches. */
module HnswGraph {
  import opened Sorting
  import opened Core

  /** Vectors with their inner product. A similarity is an integer because `total_cmp` orders
      f32 values as the integers their bit patterns encode; NaN and -0.0 do not occur. */
  datatype Space<!V> = Space(dot: (V, V) -> int, normalized: V -> V, dim: V -> nat)

  /** `links[l]` are the out-links on layer `l`, for layers `0..=level`. */
  datatype Node<V> = Node(id: ContentHash, vec: V, links: seq<seq<nat>>)

  /** (similarity, node), ordered as Rust orders the tuple. */
  type Scored = (int, nat)

  predicate ScoredLe(a: Scored, b: Scored) { a.0 < b.0 || (a.0 == b.0 && a.1 <= b.1) }

  predicate ScoredGe(a: Scored, b: Scored) { ScoredLe(b, a) }

  lemma ScoredGeIsTotalOrder()
    ensures TotalOrder(ScoredGe)
  {
  }

  function Similarity<V>(sp: Space<V>, nodes: seq<Node<V>>, a: nat, q: V): int
    requires a < |nodes|
  {
    sp.dot(nodes[a].vec, q)
  }

  // ---- the graph invariant ----

  predicate OnLayer<V>(nodes: seq<Node<V>>, i: nat, layer: nat) {
    i < |nodes| && layer < |nodes[i].links|
  }

  function MaxDegree(m: nat, layer: nat): nat { if layer == 0 then m * 2 else m }

  ghost predicate Distinct<T(!new)>(s: seq<T>) {
    forall i, j :: 0 <= i < j < |s| ==> s[i] != s[j]
  }

  /** In range, no self-link, no duplicate, only nodes of that layer. */
  ghost predicate LinksValid<V>(nodes: seq<Node<V>>, i: nat, layer: nat, links: seq<nat>) {
    Distinct(links) && forall x :: x in links ==> x != i && OnLayer(nodes, x, layer)
  }

  /** Valid and within the degree cap. */
  ghost predicate LinksOk<V>(nodes: seq<Node<V>>, m: nat, i: nat, layer: nat, links: seq<nat>) {
    LinksValid(nodes, i, layer, links) && |links| <= MaxDegree(m, layer)
  }

  ghost predicate Wired<V>(nodes: seq<Node<V>>, m: nat) {
    && (forall i :: 0 <= i < |nodes| ==> |nodes[i].links| > 0)
    && (forall i, l {:trigger nodes[i].links[l]} :: 0 <= i < |nodes| && 0 <= l < |nodes[i].links| ==>
          LinksOk(nodes, m, i, l, nodes[i].links[l]))
  }

  lemma DegreesBounded<V>(nodes: seq<Node<V>>, m: nat, i: nat, layer: nat)
    requires Wired(nodes, m) && OnLayer(nodes, i, layer)
    ensures |nodes[i].links[layer]| <= if layer == 0 then 2 * m else m
  {
    assert LinksOk(nodes, m, i, layer, nodes[i].links[layer]);
  }

  /** The entry node exists as soon as there is a node, and nothing is above it. */
  ghost predicate EntryOk<V>(nodes: seq<Node<V>>, entry: Option<nat>) {
    match entry
    case None => nodes == []
    case Some(e) => e < |nodes| && forall i :: 0 <= i < |nodes| ==> |nodes[i].links| <= |nodes[e].links|
  }

  // ---- reachability on one layer ----

  ghost predicate Walk<V>(nodes: seq<Node<V>>, layer: nat, p: seq<nat>) {
    && (forall i :: 0 <= i < |p| ==> OnLayer(nodes, p[i], layer))
    && forall i :: 0 <= i < |p| - 1 ==> p[i + 1] in nodes[p[i]].links[layer]
  }

  ghost predicate WalkFromTo<V>(nodes: seq<Node<V>>, layer: nat, p: seq<nat>, a: nat, b: nat) {
    p != [] && p[0] == a && p[|p| - 1] == b && Walk(nodes, layer, p)
  }

  ghost predicate Reachable<V>(nodes: seq<Node<V>>, layer: nat, a: nat, b: nat) {
    exists p :: WalkFromTo(nodes, layer, p, a, b)
  }

  lemma ReachItself<V>(nodes: seq<Node<V>>, layer: nat, a: nat)
    requires OnLayer(nodes, a, layer)
    ensures Reachable(nodes, layer, a, a)
  {
    assert WalkFromTo(nodes, layer, [a], a, a);
  }

  lemma ReachOneMore<V>(nodes: seq<Node<V>>, layer: nat, a: nat, b: nat, c: nat)
    requires Reachable(nodes, layer, a, b) && OnLayer(nodes, b, layer) && c in nodes[b].links[layer]
    requires OnLayer(nodes, c, layer)
    ensures Reachable(nodes, layer, a, c)
  {
    var p :| WalkFromTo(nodes, layer, p, a, b);
    assert WalkFromTo(nodes, layer, p + [c], a, c);
  }

  ghost predicate Closed<V>(nodes: seq<Node<V>>, layer: nat, s: set<nat>) {
    forall i, x :: i in s && OnLayer(nodes, i, layer) && x in nodes[i].links[layer] ==> x in s
  }

  lemma {:induction false} WalkStaysIn<V>(nodes: seq<Node<V>>, layer: nat, s: set<nat>, p: seq<nat>, i: nat)
    requires Closed(nodes, layer, s) && i < |p| && Walk(nodes, layer, p) && p[0] in s
    ensures p[i] in s
  {
    if i > 0 {
      WalkStaysIn(nodes, layer, s, p, i - 1);
      assert p[i - 1 + 1] in nodes[p[i - 1]].links[layer];
    }
  }

  ghost function ReachSet<V>(nodes: seq<Node<V>>, layer: nat, a: nat): set<nat> {
    set b | 0 <= b < |nodes| && Reachable(nodes, layer, a, b)
  }

  // ---- greedy descent ----

  /** No link of `ep` on the layer scores higher. */
  ghost predicate LocalMaximum<V>(sp: Space<V>, nodes: seq<Node<V>>, ep: nat, q: V, layer: nat)
    requires OnLayer(nodes, ep, layer)
    requires forall x :: x in nodes[ep].links[layer] ==> x < |nodes|
  {
    forall x :: x in nodes[ep].links[layer] ==> Similarity(sp, nodes, x, q) <= Similarity(sp, nodes, ep, q)
  }

  ghost function Above<V>(sp: Space<V>, nodes: seq<Node<V>>, q: V, bound: int): set<nat> {
    set i | 0 <= i < |nodes| && Similarity(sp, nodes, i, q) > bound
  }

  method GreedyClosest<V>(sp: Space<V>, nodes: seq<Node<V>>, m: nat, start: nat, q: V, layer: nat) returns (ep: nat)
    requires Wired(nodes, m) && OnLayer(nodes, start, layer)
    ensures OnLayer(nodes, ep, layer) && Reachable(nodes, layer, start, ep)
    ensures forall x :: x in nodes[ep].links[layer] ==> x < |nodes|
    ensures LocalMaximum(sp, nodes, ep, q, layer)
    ensures Similarity(sp, nodes, start, q) <= Similarity(sp, nodes, ep, q)
  {
    ep := start;
    var best := Similarity(sp, nodes, ep, q);
    ReachItself(nodes, layer, start);
    while true
      invariant OnLayer(nodes, ep, layer) && best == Similarity(sp, nodes, ep, q)
      invariant Reachable(nodes, layer, start, ep)
      invariant Similarity(sp, nodes, start, q) <= best
      decreases Above(sp, nodes, q, best)
    {
      var improved, from, links := false, ep, nodes[ep].links[layer];
      ghost var bound := best;
      assert LinksOk(nodes, m, from, layer, links);
      assert forall t :: 0 <= t < |links| ==> links[t] in links;
      for j := 0 to |links|
        invariant OnLayer(nodes, ep, layer) && best == Similarity(sp, nodes, ep, q) >= bound
        invariant Reachable(nodes, layer, start, ep)
        invariant improved <==> best > bound
        invariant !improved ==> ep == from
        invariant forall t :: 0 <= t < j ==> Similarity(sp, nodes, links[t], q) <= best
      {
        var nb := links[j];
        assert nb in links;
        var s := Similarity(sp, nodes, nb, q);
        if s > best {
          ReachOneMore(nodes, layer, start, from, nb);
          best, ep, improved := s, nb, true;
        }
      }
      if !improved { return; }
      assert ep in Above(sp, nodes, q, bound) && ep !in Above(sp, nodes, q, best);
    }
  }

  // ---- the two heaps ----

  method Greatest(s: set<Scored>) returns (top: Scored)
    requires s != {}
    ensures top in s && forall x :: x in s ==> ScoredLe(x, top)
  {
    top :| top in s;
    var rest := s - {top};
    while rest != {}
      invariant rest <= s && top in s
      invariant forall x :: x in s - rest ==> ScoredLe(x, top)
      decreases rest
    {
      var x :| x in rest;
      assert s - (rest - {x}) == (s - rest) + {x};
      rest := rest - {x};
      if ScoredLe(top, x) { top := x; }
    }
  }

  method Least(s: set<Scored>) returns (low: Scored)
    requires s != {}
    ensures low in s && forall x :: x in s ==> ScoredLe(low, x)
  {
    low :| low in s;
    var rest := s - {low};
    while rest != {}
      invariant rest <= s && low in s
      invariant forall x :: x in s - rest ==> ScoredLe(low, x)
      decreases rest
    {
      var x :| x in rest;
      assert s - (rest - {x}) == (s - rest) + {x};
      rest := rest - {x};
      if ScoredLe(x, low) { low := x; }
    }
  }
}
