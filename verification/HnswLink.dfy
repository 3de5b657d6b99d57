/** What an insertion does to one layer, stated on the graph before it and the graph after. */
module HnswLink {
  import opened Sorting
  import opened HnswGraph
  import opened HnswSearch
  import opened HnswSelect

  /** Same nodes on the same layers: only links differ. */
  ghost predicate SameNodes<V>(a: seq<Node<V>>, b: seq<Node<V>>) {
    |a| == |b| && forall i :: 0 <= i < |a| ==>
      a[i].id == b[i].id && a[i].vec == b[i].vec && |a[i].links| == |b[i].links|
  }

  /** Same nodes, and the same links on one layer. */
  ghost predicate SameOnLayer<V>(a: seq<Node<V>>, b: seq<Node<V>>, layer: nat) {
    && SameNodes(a, b)
    && forall i :: 0 <= i < |a| && layer < |a[i].links| ==> a[i].links[layer] == b[i].links[layer]
  }

  /** The members of `links` with their similarity to `q`, best first. */
  ghost predicate ScoresOf<V>(sp: Space<V>, nodes: seq<Node<V>>, q: V, links: seq<nat>, scored: seq<Scored>) {
    && InRange(nodes, scored) && DistinctNodes(scored) && |scored| == |links| && Sorted(ScoredGe, scored)
    && forall p :: p in scored ==> p.1 in links && p.1 < |nodes| && p.0 == Similarity(sp, nodes, p.1, q)
  }

  /** What pruning makes of the list `full`: itself when it fits, else the diverse selection
      of its members as seen from the node. */
  ghost predicate Reselected<V>(sp: Space<V>, nodes: seq<Node<V>>, m: nat, node: nat, layer: nat, full: seq<nat>,
                                links: seq<nat>) {
    node < |nodes| &&
    if |full| <= MaxDegree(m, layer) then links == full
    else exists scored, kept :: ScoresOf(sp, nodes, nodes[node].vec, full, scored)
                                && Selection(sp, nodes, scored, MaxDegree(m, layer), kept, links)
  }

  /** The new node links to exactly `done`, each of those gained a link back and was pruned, and
      no other list of the layer changed. */
  ghost predicate LinkedTo<V>(sp: Space<V>, before: seq<Node<V>>, after: seq<Node<V>>, m: nat, newest: nat,
                              layer: nat, done: seq<nat>) {
    && SameNodes(before, after) && OnLayer(before, newest, layer) && after[newest].links[layer] == done
    && (forall i: nat :: OnLayer(before, i, layer) && i != newest && i !in done ==>
          after[i].links[layer] == before[i].links[layer])
    && (forall i :: i in done ==>
          && OnLayer(before, i, layer)
          && Reselected(sp, before, m, i, layer, before[i].links[layer] + [newest], after[i].links[layer]))
  }

  /** The beam search of one layer and the neighbours kept as diverse. */
  datatype LayerStep = LayerStep(start: nat, found: seq<Scored>, visited: set<nat>, expanded: set<nat>,
                                 kept: seq<Scored>)

  /** One layer of an insertion: from `step.start` the beam search finds `step.found`, the new
      node links to the diverse selection of that, and is linked back. */
  ghost predicate LayerLinked<V>(sp: Space<V>, before: seq<Node<V>>, after: seq<Node<V>>, m: nat, ef: nat,
                                 newest: nat, layer: nat, step: LayerStep) {
    && OnLayer(before, newest, layer) && SameNodes(before, after)
    && BeamResult(sp, before, step.start, before[newest].vec, ef, layer, step.found, step.visited, step.expanded)
    && Selection(sp, before, step.found, m, step.kept, after[newest].links[layer])
    && LinkedTo(sp, before, after, m, newest, layer, after[newest].links[layer])
  }

  // ---- what linking gives ----

  /** A neighbour of the new node links back to it, or has no room left: twice `m` links on the
      bottom layer and `m` above. */
  lemma ReciprocalOrFull<V>(sp: Space<V>, before: seq<Node<V>>, after: seq<Node<V>>, m: nat, ef: nat, newest: nat,
                            layer: nat, step: LayerStep, nb: nat)
    requires LayerLinked(sp, before, after, m, ef, newest, layer, step) && nb in after[newest].links[layer]
    ensures OnLayer(after, nb, layer)
    ensures newest in after[nb].links[layer] || |after[nb].links[layer]| == if layer == 0 then 2 * m else m
  {
    hide BeamResult, Diverse;
    var full, links := before[nb].links[layer] + [newest], after[nb].links[layer];
    assert Reselected(sp, before, m, nb, layer, full, links);
    if |full| > MaxDegree(m, layer) {
      var scored, kept :| ScoresOf(sp, before, before[nb].vec, full, scored)
                          && Selection(sp, before, scored, MaxDegree(m, layer), kept, links);
    } else {
      assert full[|full| - 1] == newest;
    }
  }

  /** The new node's first link is the best node found, which is where the layer below starts. */
  lemma LinksToTheBestFound<V>(sp: Space<V>, before: seq<Node<V>>, after: seq<Node<V>>, m: nat, ef: nat, newest: nat,
                               layer: nat, step: LayerStep, x: nat)
    requires LayerLinked(sp, before, after, m, ef, newest, layer, step) && m > 0 && x in step.visited
    ensures var links := after[newest].links[layer];
      && links != [] && links[0] == step.found[0].1 && links[0] < |before| && x < |before|
      && Similarity(sp, before, x, before[newest].vec) <= Similarity(sp, before, links[0], before[newest].vec)
  {
    hide LinkedTo, Diverse, Reachable;
    var q, out := before[newest].vec, step.found;
    assert out[0] in out && out[|out| - 1] in out;
    assert out[0].0 >= out[|out| - 1].0;
    if (Similarity(sp, before, x, q), x) in out {
      var k :| 0 <= k < |out| && out[k] == (Similarity(sp, before, x, q), x);
      assert k == 0 || ScoredGe(out[0], out[k]);
    }
  }

  // ---- layers do not see each other ----

  lemma SameNodesChain<V>(a: seq<Node<V>>, b: seq<Node<V>>, c: seq<Node<V>>)
    requires SameNodes(a, b) && SameNodes(b, c)
    ensures SameNodes(a, c)
  {
  }

  lemma SameNodesOnLayer<V>(a: seq<Node<V>>, b: seq<Node<V>>, layer: nat, i: nat)
    requires SameNodes(a, b) && OnLayer(a, i, layer)
    ensures OnLayer(b, i, layer)
  {
  }

  lemma DiverseTransfers<V>(sp: Space<V>, a: seq<Node<V>>, b: seq<Node<V>>, kept: seq<Scored>, c: Scored)
    requires SameNodes(a, b)
    ensures InRange(a, kept) <==> InRange(b, kept)
    ensures TooClose(sp, a, kept, c) <==> TooClose(sp, b, kept, c)
    ensures c.1 < |a| && InRange(a, kept) ==> (Diverse(sp, a, kept, c) <==> Diverse(sp, b, kept, c))
  {
  }

  lemma SelectionTransfers<V>(sp: Space<V>, a: seq<Node<V>>, b: seq<Node<V>>, candidates: seq<Scored>, cap: nat,
                              kept: seq<Scored>, out: seq<nat>)
    requires SameNodes(a, b) && Selection(sp, a, candidates, cap, kept, out)
    ensures Selection(sp, b, candidates, cap, kept, out)
  {
    hide TooClose, Sorted, SameNodes, Taken, DiverseChain, InTurn;
    forall p: Scored ensures TooClose(sp, a, kept, p) <==> TooClose(sp, b, kept, p) {
      DiverseTransfers(sp, a, b, kept, p);
    }
    ChainTransfers(sp, a, b, kept);
    TurnTransfers(sp, a, b, candidates, cap, kept, out);
  }

  lemma TurnTransfers<V>(sp: Space<V>, a: seq<Node<V>>, b: seq<Node<V>>, candidates: seq<Scored>, cap: nat,
                         kept: seq<Scored>, out: seq<nat>)
    requires SameNodes(a, b) && InTurn(sp, a, candidates, cap, kept, out)
    ensures InTurn(sp, b, candidates, cap, kept, out)
  {
    hide Only;
    forall i | Passed(sp, a, candidates, kept, i) ensures Passed(sp, b, candidates, kept, i) {
      var j :| PassedFor(sp, a, candidates, kept, i, j);
      assert PassedFor(sp, b, candidates, kept, i, j);
    }
  }

  lemma ChainTransfers<V>(sp: Space<V>, a: seq<Node<V>>, b: seq<Node<V>>, kept: seq<Scored>)
    requires SameNodes(a, b) && DiverseChain(sp, a, kept)
    ensures DiverseChain(sp, b, kept)
  {
    hide Diverse, SameNodes;
    SameLength(a, b);
    forall k | 0 <= k < |kept| ensures Diverse(sp, b, kept[..k], kept[k]) {
      DiverseTransfers(sp, a, b, kept[..k], kept[k]);
    }
  }

  lemma SameLength<V>(a: seq<Node<V>>, b: seq<Node<V>>)
    requires SameNodes(a, b)
    ensures |a| == |b|
  {
  }

  lemma ReselectedTransfers<V>(sp: Space<V>, a: seq<Node<V>>, b: seq<Node<V>>, m: nat, node: nat, layer: nat,
                               full: seq<nat>, links: seq<nat>)
    requires SameNodes(a, b) && Reselected(sp, a, m, node, layer, full, links)
    ensures Reselected(sp, b, m, node, layer, full, links)
  {
    hide Selection;
    if |full| > MaxDegree(m, layer) {
      var scored, kept :| ScoresOf(sp, a, a[node].vec, full, scored)
                          && Selection(sp, a, scored, MaxDegree(m, layer), kept, links);
      SelectionTransfers(sp, a, b, scored, MaxDegree(m, layer), kept, links);
      assert ScoresOf(sp, b, b[node].vec, full, scored);
    }
  }

  lemma ReachableTransfers<V>(a: seq<Node<V>>, b: seq<Node<V>>, layer: nat, x: nat, y: nat)
    requires SameOnLayer(a, b, layer) && Reachable(a, layer, x, y)
    ensures Reachable(b, layer, x, y)
  {
    var p :| WalkFromTo(a, layer, p, x, y);
    assert WalkFromTo(b, layer, p, x, y);
  }

  lemma BeamTransfers<V>(sp: Space<V>, a: seq<Node<V>>, b: seq<Node<V>>, start: nat, q: V, ef: nat, layer: nat,
                         out: seq<Scored>, visited: set<nat>, expanded: set<nat>)
    requires SameOnLayer(a, b, layer) && BeamResult(sp, a, start, q, ef, layer, out, visited, expanded)
    ensures BeamResult(sp, b, start, q, ef, layer, out, visited, expanded)
  {
    hide Reachable, Sorted, Distinct;
    forall x: nat | Reachable(a, layer, start, x) ensures Reachable(b, layer, start, x) {
      ReachableTransfers(a, b, layer, start, x);
    }
    forall i | i in expanded ensures AllLinksVisited(b, layer, i, visited) {
      assert AllLinksVisited(a, layer, i, visited);
    }
  }

  lemma LinkedToTransfers<V>(sp: Space<V>, before: seq<Node<V>>, before': seq<Node<V>>, after: seq<Node<V>>,
                             after': seq<Node<V>>,
                             m: nat, newest: nat, layer: nat, done: seq<nat>)
    requires SameOnLayer(before, before', layer) && SameOnLayer(after, after', layer)
    requires LinkedTo(sp, before, after, m, newest, layer, done)
    ensures LinkedTo(sp, before', after', m, newest, layer, done)
  {
    hide Reselected;
    forall i | i in done
      ensures OnLayer(before', i, layer)
              && Reselected(sp, before', m, i, layer, before'[i].links[layer] + [newest], after'[i].links[layer])
    {
      ReselectedTransfers(sp, before, before', m, i, layer, before[i].links[layer] + [newest], after[i].links[layer]);
    }
  }

  /** How a layer is linked depends on that layer alone. */
  lemma LayerLinkedTransfers<V>(sp: Space<V>, before: seq<Node<V>>, before': seq<Node<V>>, after: seq<Node<V>>,
                                after': seq<Node<V>>,
                                m: nat, ef: nat, newest: nat, layer: nat, step: LayerStep)
    requires SameOnLayer(before, before', layer) && SameOnLayer(after, after', layer)
    requires LayerLinked(sp, before, after, m, ef, newest, layer, step)
    ensures LayerLinked(sp, before', after', m, ef, newest, layer, step)
  {
    hide BeamResult, Selection, LinkedTo;
    var links := after[newest].links[layer];
    BeamTransfers(sp, before, before', step.start, before[newest].vec, ef, layer, step.found, step.visited,
                  step.expanded);
    SelectionTransfers(sp, before, before', step.found, m, step.kept, links);
    LinkedToTransfers(sp, before, before', after, after', m, newest, layer, links);
  }
}
