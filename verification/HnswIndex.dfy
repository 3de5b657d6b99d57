/** Insertion and queries (crates/mem-index/src/hnsw.rs). */
module HnswIndex {
  import opened Sorting
  import opened Core
  import opened HnswGraph
  import opened HnswSearch
  import opened HnswSelect
  import opened HnswLink

  datatype Vector<V> = Vector(model: Bytes, data: V)

  datatype IndexError = ModelMismatch | DimMismatch

  datatype Neighbor = Neighbor(id: ContentHash, score: int)

  // ---- states between two consistent graphs ----

  /** Everything is wired but one list, which may be over its cap. */
  ghost predicate WiredBut<V>(nodes: seq<Node<V>>, m: nat, i0: nat, l0: nat) {
    && (forall i :: 0 <= i < |nodes| ==> |nodes[i].links| > 0)
    && (forall i, l {:trigger nodes[i].links[l]} :: 0 <= i < |nodes| && 0 <= l < |nodes[i].links| ==>
          LinksValid(nodes, i, l, nodes[i].links[l])
          && ((i == i0 && l == l0) || |nodes[i].links[l]| <= MaxDegree(m, l)))
  }

  function WithLinks<V>(nodes: seq<Node<V>>, i: nat, layer: nat, links: seq<nat>): seq<Node<V>>
    requires OnLayer(nodes, i, layer)
  {
    nodes[i := nodes[i].(links := nodes[i].links[layer := links])]
  }

  /** Nothing on the layer links to `x`. */
  ghost predicate Unlinked<V>(nodes: seq<Node<V>>, x: nat, layer: nat) {
    forall i :: 0 <= i < |nodes| && layer < |nodes[i].links| ==> x !in nodes[i].links[layer]
  }

  lemma LinksValidTransfer<V>(a: seq<Node<V>>, b: seq<Node<V>>, i: nat, layer: nat, links: seq<nat>)
    requires SameNodes(a, b)
    ensures LinksValid(a, i, layer, links) <==> LinksValid(b, i, layer, links)
  {
    assert forall x: nat :: OnLayer(a, x, layer) <==> OnLayer(b, x, layer);
  }

  /** Replacing one list by a valid one leaves all others as they were. */
  lemma ReplaceLinks<V>(nodes: seq<Node<V>>, m: nat, i: nat, layer: nat, links: seq<nat>)
    requires WiredBut(nodes, m, i, layer) && OnLayer(nodes, i, layer) && LinksValid(nodes, i, layer, links)
    ensures var after := WithLinks(nodes, i, layer, links);
      && SameNodes(nodes, after) && WiredBut(after, m, i, layer)
      && (|links| <= MaxDegree(m, layer) ==> Wired(after, m))
  {
    var after := WithLinks(nodes, i, layer, links);
    forall j: nat, l: nat | j < |after| && l < |after[j].links|
      ensures LinksValid(after, j, l, after[j].links[l])
    {
      assert after[j].links[l] == if j == i && l == layer then links else nodes[j].links[l];
      assert LinksValid(nodes, j, l, nodes[j].links[l]);
      LinksValidTransfer(nodes, after, j, l, after[j].links[l]);
    }
  }

  lemma WiredIsWiredBut<V>(nodes: seq<Node<V>>, m: nat, i: nat, layer: nat)
    requires Wired(nodes, m)
    ensures WiredBut(nodes, m, i, layer)
  {
  }

  class HnswIndex<!V> {
    const sp: Space<V>
    const m: nat
    const efConstruction: nat
    const efSearch: nat
    /** The level drawn from the id's hash; at most 32. */
    const levelFor: ContentHash -> nat
    var model: Option<Bytes>
    var dim: Option<nat>
    var nodes: seq<Node<V>>
    var entry: Option<nat>

    ghost predicate Valid()
      reads this
    {
      m >= 2 && efConstruction >= 1 && efSearch >= 1 && Wired(nodes, m) && EntryOk(nodes, entry)
    }

    constructor (space: Space<V>, degree: nat, efC: nat, efS: nat, levels: ContentHash -> nat)
      ensures Valid() && nodes == [] && model == None && dim == None && sp == space && levelFor == levels
      ensures m == (if degree < 2 then 2 else degree) && entry == None
      ensures efConstruction == (if efC == 0 then 1 else efC) && efSearch == (if efS == 0 then 1 else efS)
    {
      sp, levelFor := space, levels;
      m := if degree < 2 then 2 else degree;
      efConstruction, efSearch := if efC < 1 then 1 else efC, if efS < 1 then 1 else efS;
      model, dim, nodes, entry := None, None, [], None;
    }

    function Check(v: Vector<V>): Option<IndexError>
      reads this
    {
      if model.Some? && model.value != v.model then Some(ModelMismatch)
      else if dim.Some? && dim.value != sp.dim(v.data) then Some(DimMismatch)
      else None
    }

    /** The graph with an unlinked node for `id` pushed. */
    function Pushed(before: seq<Node<V>>, id: ContentHash, v: Vector<V>): seq<Node<V>> {
      before + [Node(id, sp.normalized(v.data), seq(levelFor(id) + 1, _ => []))]
    }

    /** Re-select a node's links down to the cap. */
    method Prune(node: nat, layer: nat)
      requires OnLayer(nodes, node, layer) && WiredBut(nodes, m, node, layer)
      modifies this`nodes
      ensures Wired(nodes, m) && SameNodes(old(nodes), nodes) && OnLayer(nodes, node, layer)
      ensures nodes == WithLinks(old(nodes), node, layer, nodes[node].links[layer])
      ensures Reselected(sp, old(nodes), m, node, layer, old(nodes[node].links[layer]), nodes[node].links[layer])
    {
      hide SameNodes, WiredBut, Wired, Selection, Sorted, DistinctNodes;
      var links := nodes[node].links[layer];
      if |links| <= MaxDegree(m, layer) {
        ListIsValid(nodes, m, node, layer);
        assert nodes[node].links[layer := links] == nodes[node].links;
        assert nodes == WithLinks(nodes, node, layer, links);
        ReplaceLinks(nodes, m, node, layer, links);
        return;
      }
      ListIsValid(nodes, m, node, layer);
      var q := nodes[node].vec;
      var scored := ScoreAndSort(sp, nodes, links, q);
      var chosen, kept := SelectDiverse(sp, nodes, scored, MaxDegree(m, layer));
      SelectedIsValid(sp, nodes, m, node, layer, links, scored, kept, chosen);
      assert Reselected(sp, nodes, m, node, layer, links, chosen);
      ReplaceLinks(nodes, m, node, layer, chosen);
      nodes := WithLinks(nodes, node, layer, chosen);
    }

    /** Link the new node and a neighbour both ways, then prune the neighbour. */
    method Connect(newest: nat, nb: nat, layer: nat)
      requires Wired(nodes, m) && OnLayer(nodes, newest, layer) && OnLayer(nodes, nb, layer) && newest != nb
      requires nb !in nodes[newest].links[layer] && newest !in nodes[nb].links[layer]
      requires |nodes[newest].links[layer]| < MaxDegree(m, layer)
      modifies this`nodes
      ensures Wired(nodes, m) && SameNodes(old(nodes), nodes) && |nodes| == |old(nodes)|
      ensures OnLayer(nodes, newest, layer) && nodes[newest].links[layer] == old(nodes[newest].links[layer]) + [nb]
      ensures OnlyListsChanged(old(nodes), nodes, layer, {newest, nb})
      ensures OnLayer(nodes, nb, layer)
              && Reselected(sp, old(nodes), m, nb, layer, old(nodes[nb].links[layer]) + [newest],
                            nodes[nb].links[layer])
    {
      hide Wired, WiredBut, SameNodes, Reselected;
      ghost var before := nodes;
      WiredIsWiredBut(nodes, m, newest, layer);
      AppendValid(nodes, m, newest, layer, nb);
      ReplaceLinks(nodes, m, newest, layer, nodes[newest].links[layer] + [nb]);
      nodes := WithLinks(nodes, newest, layer, nodes[newest].links[layer] + [nb]);
      WiredIsWiredBut(nodes, m, nb, layer);
      AppendValid(nodes, m, nb, layer, newest);
      ReplaceLinks(nodes, m, nb, layer, nodes[nb].links[layer] + [newest]);
      ghost var middle := nodes;
      nodes := WithLinks(nodes, nb, layer, nodes[nb].links[layer] + [newest]);
      ghost var linked := nodes;
      Prune(nb, layer);
      SameNodesChain(before, middle, linked);
      SameNodesChain(before, linked, nodes);
      ReselectedBack(sp, before, linked, m, nb, layer, before[nb].links[layer] + [newest], nodes[nb].links[layer]);
    }

    /** One shared layer of an insertion: beam search, then link to the diverse neighbours. */
    method AddOnLayer(newest: nat, start: nat, layer: nat) returns (ep: nat, ghost step: LayerStep)
      requires Wired(nodes, m) && OnLayer(nodes, newest, layer) && OnLayer(nodes, start, layer) && start != newest
      requires nodes[newest].links[layer] == [] && Unlinked(nodes, newest, layer)
      modifies this`nodes
      ensures Wired(nodes, m) && SameNodes(old(nodes), nodes) && OnLayer(nodes, ep, layer) && ep != newest
      ensures OtherLayersSame(old(nodes), nodes, layer)
      ensures step.start == start && step.found != [] && ep == step.found[0].1
      ensures LayerLinked(sp, old(nodes), nodes, m, efConstruction, newest, layer, step)
    {
      hide Wired, SameNodes, Reachable, BeamResult, Selection, LinkedTo, OnlyListsChanged, OtherLayersSame, Reselected;
      var q := nodes[newest].vec;
      var found, visited, expanded := SearchLayer(sp, nodes, m, start, q, efConstruction, layer);
      FoundIsLinkable(sp, nodes, start, q, efConstruction, layer, found, visited, expanded, newest);
      ep := found[0].1;
      var chosen, kept := SelectDiverse(sp, nodes, found, m);
      ChosenIsLinkable(sp, nodes, found, m, kept, chosen, newest, layer);
      step := LayerStep(start, found, visited, expanded, kept);
      LinkNone(sp, nodes, m, newest, layer);
      ghost var was := nodes;
      for j := 0 to |chosen|
        invariant Wired(nodes, m) && OtherLayersSame(was, nodes, layer)
        invariant LinkedTo(sp, was, nodes, m, newest, layer, chosen[..j])
      {
        assert chosen[j] !in chosen[..j];
        StillUnlinked(sp, was, nodes, m, newest, layer, chosen[..j], chosen[j]);
        ghost var before := nodes;
        Connect(newest, chosen[j], layer);
        assert chosen[..j + 1] == chosen[..j] + [chosen[j]];
        LinkOneMore(sp, was, before, nodes, m, newest, layer, chosen[..j], chosen[j]);
      }
      assert chosen[..|chosen|] == chosen;
      LinkedFacts(sp, was, nodes, m, newest, layer, chosen);
      SameNodesOnLayer(was, nodes, layer, ep);
    }

    /** The shared layers of an insertion, from `layers - 1` down to 0. */
    method AddOnLayers(newest: nat, start: nat, layers: nat) returns (ghost steps: seq<LayerStep>)
      requires Wired(nodes, m) && start != newest && start < |nodes| && 0 < layers <= |nodes[start].links|
      requires newest < |nodes| && layers <= |nodes[newest].links|
      requires forall k :: 0 <= k < layers ==> nodes[newest].links[k] == [] && Unlinked(nodes, newest, k)
      modifies this`nodes
      ensures Wired(nodes, m)
      ensures Inserted(sp, old(nodes), nodes, m, efConstruction, newest, layers, start, steps)
    {
      hide Wired, SameNodes, Unlinked, OtherLayersSame, LayerLinked, SameOnLayer;
      var ep: nat, l := start, layers;
      ghost var was := nodes;
      steps := seq(layers, _ => LayerStep(start, [], {}, {}, []));
      SameEverywhere(was);
      while l > 0
        invariant l <= layers && |steps| == layers && Wired(nodes, m)
        invariant ep != newest && ep < |nodes| && l <= |nodes[ep].links|
        invariant |nodes| == |was| && |nodes[newest].links| == |was[newest].links|
        invariant ep == StartOf(steps, start, l - 1)
        invariant forall k :: 0 <= k < l || layers <= k ==> SameOnLayer(was, nodes, k)
        invariant forall k :: l <= k < layers ==> LayerDone(sp, was, nodes, m, efConstruction, newest, start, steps, k)
      {
        l := l - 1;
        ghost var before := nodes;
        UnlinkedTransfers(was, before, newest, l);
        ghost var step;
        ep, step := AddOnLayer(newest, ep, l);
        LayerAdded(sp, was, before, nodes, m, efConstruction, newest, start, steps, steps[l := step], layers, l, step);
        steps := steps[l := step];
      }
      assert SameOnLayer(was, nodes, layers);
      SameOnLayerNodes(was, nodes, layers);
    }

    /** Insert a vector. Every insertion keeps the graph invariant, moves no stored node, links
        the new node on every layer it shares with the entry node, and raises the entry when
        the new node is above it. */
    method Add(id: ContentHash, v: Vector<V>)
      returns (error: Option<IndexError>, ghost start: nat, ghost steps: seq<LayerStep>)
      requires Valid()
      modifies this
      ensures Valid()
      ensures error == (if old(model).Some? && old(model) != Some(v.model) then Some(ModelMismatch)
                        else if old(dim).Some? && old(dim) != Some(sp.dim(v.data)) then Some(DimMismatch) else None)
      ensures error.None? ==> OneMore(old(nodes), nodes, id, sp.normalized(v.data), levelFor(id))
      ensures error.Some? ==> nodes == old(nodes) && entry == old(entry) && model == old(model) && dim == old(dim)
      ensures error.None? ==> model == Some(v.model) && dim == Some(sp.dim(v.data))
      ensures error.None? && old(entry).None? ==> nodes == Pushed(old(nodes), id, v) && entry == Some(0)
      ensures error.None? && old(entry).Some? ==>
        var level, top := levelFor(id), |old(nodes)[old(entry).value].links| - 1;
        && Inserted(sp, Pushed(old(nodes), id, v), nodes, m, efConstruction, |old(nodes)|, Min(level, top) + 1,
                    start, steps)
        && (if level < top then LocallyBest(sp, Pushed(old(nodes), id, v), start, sp.normalized(v.data), level + 1)
            else start == old(entry).value)
        && entry == (if level > top then Some(|old(nodes)|) else old(entry))
    {
      hide Wired, Inserted, LocallyBest, Unlinked, EntryOk, SameNodes, OneMore;
      start, steps := 0, [];
      error := Check(v);
      if error.Some? { return; }
      model, dim := Some(v.model), Some(sp.dim(v.data));
      var level, newest := levelFor(id), |nodes|;
      ghost var was := nodes;
      nodes := Pushed(nodes, id, v);
      PushWired(was, nodes, m);
      EntryFacts(was, entry);
      if entry.None? {
        entry := Some(newest);
        EntryKept(was, nodes, 0);
        PushedIsOneMore(was, nodes, nodes, id, sp.normalized(v.data), level);
        return;
      }
      EntryKept(was, nodes, entry.value);
      ghost var top := |nodes[entry.value].links| - 1;
      start, steps := Insert(newest, entry.value, level);
      InsertedKeeps(sp, Pushed(was, id, v), nodes, m, efConstruction, newest, Min(level, top) + 1, start, steps);
      PushedIsOneMore(was, Pushed(was, id, v), nodes, id, sp.normalized(v.data), level);
      if level > |nodes[entry.value].links| - 1 { entry := Some(newest); }
      SameLevels(Pushed(was, id, v), nodes, entry);
    }

    /** Wire in the node just pushed. */
    method Insert(newest: nat, first: nat, level: nat) returns (ghost start: nat, ghost steps: seq<LayerStep>)
      requires Wired(nodes, m) && newest == |nodes| - 1 && first < newest
      requires |nodes[newest].links| == level + 1
      requires forall k :: 0 <= k <= level ==> nodes[newest].links[k] == [] && Unlinked(nodes, newest, k)
      requires forall i :: 0 <= i < newest ==> |nodes[i].links| <= |nodes[first].links|
      modifies this`nodes
      ensures Wired(nodes, m) && |nodes| == |old(nodes)|
      ensures forall i :: 0 <= i < |nodes| ==> |nodes[i].links| == |old(nodes)[i].links|
      ensures var top := |old(nodes)[first].links| - 1;
        && top >= 0 && Inserted(sp, old(nodes), nodes, m, efConstruction, newest, Min(level, top) + 1, start, steps)
        && if level < top then LocallyBest(sp, old(nodes), start, old(nodes)[newest].vec, level + 1) else start == first
    {
      hide Wired, Unlinked, LocallyBest, LayerDone;
      WiredHasLayers(nodes, m, first);
      var top := |nodes[first].links| - 1;
      var ep: nat := Descend(sp, nodes, m, first, nodes[newest].vec, top, level + 1);
      WiredHasLayers(nodes, m, ep);
      DescentOffNewest(sp, nodes, ep, level + 1, newest);
      start := ep;
      steps := AddOnLayers(newest, ep, Min(level, top) + 1);
    }

    /** The `k` nearest found from the descent point with a beam of max(ef_search, k). */
    method Search(q: Vector<V>, k: nat)
      returns (hits: seq<Neighbor>, error: Option<IndexError>, ghost from: nat, ghost step: LayerStep)
      requires Valid()
      ensures error == (if model.Some? && model != Some(q.model) then Some(ModelMismatch)
                        else if dim.Some? && dim != Some(sp.dim(q.data)) then Some(DimMismatch) else None)
      ensures error.Some? || nodes == [] ==> hits == []
      ensures |hits| <= k && Sorted(ScoreGe, hits)
      ensures error.None? && nodes != [] ==>
        var qn := sp.normalized(q.data);
        && step.start == from && InRange(nodes, step.found) && |hits| == Min(k, |step.found|)
        && (forall i :: 0 <= i < |hits| ==>
              hits[i].id == nodes[step.found[i].1].id && hits[i].score == sp.dot(nodes[step.found[i].1].vec, qn))
        && (|ReachSet(nodes, 0, from)| <= Max(efSearch, k) ==>
              Nearest(sp, nodes, qn, ReachSet(nodes, 0, from), k, hits, FirstNodes(step.found, |hits|)))
        && BeamResult(sp, nodes, from, qn, Max(efSearch, k), 0,
                      step.found, step.visited, step.expanded)
        && (if |nodes[entry.value].links| > 1 then LocallyBest(sp, nodes, from, qn, 1) else from == entry.value)
        && OnLayer(nodes, from, 0)
        && (|ReachSet(nodes, 0, from)| <= Max(efSearch, k) ==>
              TopK(sp, nodes, qn, ReachSet(nodes, 0, from), k, hits))
    {
      hide Wired, Reachable, BeamResult, LocallyBest, TopK, Nearest, Arrangement, Distinct;
      hits, from, step := [], 0, LayerStep(0, [], {}, {}, []);
      error := Check(q);
      if error.Some? || entry.None? { return; }
      var qn := sp.normalized(q.data);
      WiredHasLayers(nodes, m, entry.value);
      var top := |nodes[entry.value].links| - 1;
      var ep := Descend(sp, nodes, m, entry.value, qn, top, 1);
      WiredHasLayers(nodes, m, ep);
      var ef := Max(efSearch, k);
      var found, visited, expanded := SearchLayer(sp, nodes, m, ep, qn, ef, 0);
      FoundInRange(sp, nodes, ep, qn, ef, found, visited, expanded);
      hits := Report(nodes, found, k);
      from, step := ep, LayerStep(ep, found, visited, expanded, []);
      if |ReachSet(nodes, 0, ep)| <= ef {
        WideBeamIsExhaustive(sp, nodes, ep, qn, ef, 0, found, visited, expanded);
        FoundIsTopK(sp, nodes, ep, qn, ef, found, visited, expanded, k);
        CountNodes(sp, nodes, qn, found);
        ReportIsNearest(sp, nodes, qn, ReachSet(nodes, 0, ep), found, k);
      }
    }
  }

  // ---- what a query returns ----

  predicate ScoreGe(a: Neighbor, b: Neighbor) { a.score >= b.score }

  function Report<V>(nodes: seq<Node<V>>, found: seq<Scored>, k: nat): (hits: seq<Neighbor>)
    requires InRange(nodes, found)
    ensures |hits| == if k <= |found| then k else |found|
  {
    var n := if k <= |found| then k else |found|;
    seq(n, i requires 0 <= i < n => Neighbor(nodes[found[i].1].id, found[i].0))
  }

  ghost function FirstNodes(found: seq<Scored>, n: nat): seq<nat>
    requires n <= |found|
  {
    seq(n, i requires 0 <= i < n => found[i].1)
  }

  /** Each hit is one of the nodes `xs`, in that order, with its own id and score. */
  ghost predicate Reports<V>(sp: Space<V>, nodes: seq<Node<V>>, q: V, hits: seq<Neighbor>, xs: seq<nat>) {
    && |hits| == |xs| && (forall i :: 0 <= i < |xs| ==> xs[i] < |nodes|)
    && (forall i :: 0 <= i < |xs| ==> hits[i].id == nodes[xs[i]].id && hits[i].score == sp.dot(nodes[xs[i]].vec, q))
  }

  /** `xs` are `n` nodes of `pool`, best first, and nothing of it left out scores higher. */
  ghost predicate Closest(score: nat -> int, pool: set<nat>, n: nat, xs: seq<nat>) {
    && |xs| == n && Distinct(xs) && (forall i :: 0 <= i < |xs| ==> xs[i] in pool)
    && (forall i, j :: 0 <= i < j < |xs| ==> score(xs[i]) >= score(xs[j]))
    && (xs != [] ==> forall x :: x in pool && x !in xs ==> score(x) <= score(xs[|xs| - 1]))
  }

  function Scorer<V>(sp: Space<V>, nodes: seq<Node<V>>, q: V): nat -> int {
    (x: nat) => if x < |nodes| then sp.dot(nodes[x].vec, q) else 0
  }

  /** `hits` report `k` nearest nodes of `pool`, or all of them. */
  ghost predicate Nearest<V>(sp: Space<V>, nodes: seq<Node<V>>, q: V, pool: set<nat>, k: nat,
                             hits: seq<Neighbor>, xs: seq<nat>)
  {
    Reports(sp, nodes, q, hits, xs) && Closest(Scorer(sp, nodes, q), pool, Min(k, |pool|), xs)
  }

  lemma ReportIsNearest<V>(sp: Space<V>, nodes: seq<Node<V>>, q: V, pool: set<nat>, all: seq<Scored>, k: nat)
    requires Arrangement(sp, nodes, q, pool, all) && |all| == |pool|
    ensures var hits := Report(nodes, all, k); Nearest(sp, nodes, q, pool, k, hits, FirstNodes(all, |hits|))
  {
    hide Closest;
    FirstAreClosest(Scorer(sp, nodes, q), pool, all, Min(k, |all|));
  }

  lemma FirstAreClosest(score: nat -> int, pool: set<nat>, all: seq<Scored>, n: nat)
    requires n <= |all| && Sorted(ScoredGe, all) && DistinctNodes(all) && NodesOf(all) == pool
    requires forall i :: 0 <= i < |all| ==> all[i].0 == score(all[i].1)
    ensures Closest(score, pool, n, FirstNodes(all, n))
  {
    var xs := FirstNodes(all, n);
    forall i | 0 <= i < n ensures xs[i] in pool { assert all[i] in all; }
    assert forall i :: 0 <= i < n ==> xs[i] == all[i].1;
    forall i, j | 0 <= i < j < n ensures score(xs[i]) >= score(xs[j]) { assert ScoredGe(all[i], all[j]); }
    if n > 0 {
      forall x | x in pool && x !in xs ensures score(x) <= score(xs[n - 1]) { LeftOutIsLast(score, pool, all, n, x); }
    }
  }

  lemma LeftOutIsLast(score: nat -> int, pool: set<nat>, all: seq<Scored>, n: nat, x: nat)
    requires 0 < n <= |all| && Sorted(ScoredGe, all) && NodesOf(all) == pool && x in pool && x !in FirstNodes(all, n)
    requires forall i :: 0 <= i < |all| ==> all[i].0 == score(all[i].1)
    ensures score(x) <= score(all[n - 1].1)
  {
    var p :| p in all && p.1 == x;
    var j :| 0 <= j < |all| && all[j] == p;
    assert forall i :: 0 <= i < n ==> FirstNodes(all, n)[i] == all[i].1;
    assert ScoredGe(all[n - 1], all[j]);
  }

  /** `hits` are the `k` best of `pool`: they list, best first, a best-`k` arrangement of it. */
  ghost predicate TopK<V>(sp: Space<V>, nodes: seq<Node<V>>, q: V, pool: set<nat>, k: nat, hits: seq<Neighbor>) {
    exists all: seq<Scored> :: Arrangement(sp, nodes, q, pool, all) && hits == Report(nodes, all, k)
  }

  /** Every node of `pool` once, with its score, best first. */
  ghost predicate Arrangement<V>(sp: Space<V>, nodes: seq<Node<V>>, q: V, pool: set<nat>, all: seq<Scored>) {
    && InRange(nodes, all) && Sorted(ScoredGe, all) && DistinctNodes(all) && NodesOf(all) == pool
    && forall i :: 0 <= i < |all| ==> all[i].0 == Similarity(sp, nodes, all[i].1, q)
  }

  lemma FoundInRange<V>(sp: Space<V>, nodes: seq<Node<V>>, start: nat, q: V, ef: nat, found: seq<Scored>,
                        visited: set<nat>, expanded: set<nat>)
    requires BeamResult(sp, nodes, start, q, ef, 0, found, visited, expanded)
    ensures InRange(nodes, found) && DistinctNodes(found) && Sorted(ScoredGe, found) && Distinct(found)
    ensures forall i :: 0 <= i < |found| ==> found[i].0 == Similarity(sp, nodes, found[i].1, q)
    ensures forall p :: p in found ==> p.1 < |nodes| && p.0 == Similarity(sp, nodes, p.1, q)
  {
    assert forall i :: 0 <= i < |found| ==> found[i] in found;
  }

  lemma FoundIsTopK<V>(sp: Space<V>, nodes: seq<Node<V>>, start: nat, q: V, ef: nat, found: seq<Scored>,
                       visited: set<nat>, expanded: set<nat>, k: nat)
    requires BeamResult(sp, nodes, start, q, ef, 0, found, visited, expanded)
    requires NodesOf(found) == ReachSet(nodes, 0, start)
    ensures InRange(nodes, found) && Arrangement(sp, nodes, q, ReachSet(nodes, 0, start), found)
    ensures TopK(sp, nodes, q, ReachSet(nodes, 0, start), k, Report(nodes, found, k))
  {
    FoundInRange(sp, nodes, start, q, ef, found, visited, expanded);
    assert Arrangement(sp, nodes, q, ReachSet(nodes, 0, start), found);
  }

  ghost predicate LocallyBest<V>(sp: Space<V>, nodes: seq<Node<V>>, ep: nat, q: V, layer: nat) {
    && OnLayer(nodes, ep, layer) && (forall x :: x in nodes[ep].links[layer] ==> x < |nodes|)
    && LocalMaximum(sp, nodes, ep, q, layer)
  }

  /** Greedy descent through the layers `top`, ..., `bottom`, in that order. */
  method Descend<V>(sp: Space<V>, nodes: seq<Node<V>>, m: nat, entry: nat, q: V, top: nat, bottom: nat)
    returns (ep: nat)
    requires Wired(nodes, m) && OnLayer(nodes, entry, top)
    ensures ep < |nodes| && (bottom <= top ==> OnLayer(nodes, ep, bottom)) && (bottom > top ==> ep == entry)
    ensures bottom <= top ==> LocallyBest(sp, nodes, ep, q, bottom)
  {
    ep := entry;
    var layer: nat := top + 1;
    while layer > bottom
      invariant ep < |nodes| && (bottom <= layer <= top ==> OnLayer(nodes, ep, layer))
      invariant layer == top + 1 ==> ep == entry
      invariant layer <= top ==> LocallyBest(sp, nodes, ep, q, layer)
      invariant layer <= top + 1 && (bottom <= top ==> bottom <= layer) && (bottom > top ==> layer == top + 1)
    {
      layer := layer - 1;
      ep := GreedyClosest(sp, nodes, m, ep, q, layer);
    }
  }

  lemma WiredHasLayers<V>(nodes: seq<Node<V>>, m: nat, i: nat)
    requires Wired(nodes, m) && i < |nodes|
    ensures |nodes[i].links| > 0
  {
  }

  /** A new node without links breaks nothing, and nothing links to it. */
  lemma PushWired<V>(was: seq<Node<V>>, pushed: seq<Node<V>>, m: nat)
    requires Wired(was, m) && |pushed| == |was| + 1 && pushed[..|was|] == was
    requires var newest := pushed[|was|];
      |newest.links| > 0 && forall l :: 0 <= l < |newest.links| ==> newest.links[l] == []
    ensures Wired(pushed, m) && forall l: nat :: Unlinked(pushed, |was|, l)
  {
    assert forall i :: 0 <= i < |was| ==> pushed[i] == pushed[..|was|][i] == was[i];
    assert forall x: nat, l: nat :: OnLayer(was, x, l) ==> OnLayer(pushed, x, l);
    forall i: nat, l: nat | i < |pushed| && l < |pushed[i].links| ensures LinksOk(pushed, m, i, l, pushed[i].links[l]) {
      if i < |was| { assert LinksOk(was, m, i, l, was[i].links[l]); }
    }
    forall i: nat, l: nat | i < |pushed| && l < |pushed[i].links| ensures |was| !in pushed[i].links[l] {
      if i < |was| { assert LinksOk(was, m, i, l, was[i].links[l]); }
    }
  }

  // ---- a whole insertion ----

  /** Where the search of layer `k` starts: at the best node found on the layer above. */
  ghost function StartOf(steps: seq<LayerStep>, start: nat, k: int): nat {
    if 0 <= k + 1 < |steps| && steps[k + 1].found != [] then steps[k + 1].found[0].1 else start
  }

  ghost predicate LayerDone<V>(sp: Space<V>, before: seq<Node<V>>, after: seq<Node<V>>, m: nat, ef: nat, newest: nat,
                               start: nat, steps: seq<LayerStep>, k: nat)
  {
    && k < |steps| && steps[k].found != [] && steps[k].start == StartOf(steps, start, k)
    && LayerLinked(sp, before, after, m, ef, newest, k, steps[k])
  }

  /** The new node is linked on the layers below `layers`, each search starting where the one
      above found its best, and the layers from there up are as they were. */
  ghost predicate Inserted<V>(sp: Space<V>, before: seq<Node<V>>, after: seq<Node<V>>, m: nat, ef: nat, newest: nat,
                              layers: nat, start: nat, steps: seq<LayerStep>)
  {
    && |steps| == layers && SameNodes(before, after)
    && (forall k :: 0 <= k < layers ==> LayerDone(sp, before, after, m, ef, newest, start, steps, k))
    && (forall k :: layers <= k ==> SameOnLayer(before, after, k))
  }

  /** One more node, with its id and vector, on its layers; all others are where they were. */
  ghost predicate OneMore<V>(before: seq<Node<V>>, after: seq<Node<V>>, id: ContentHash, vec: V, level: nat) {
    && |after| == |before| + 1
    && after[|before|].id == id && after[|before|].vec == vec && |after[|before|].links| == level + 1
    && forall i :: 0 <= i < |before| ==>
         && after[i].id == before[i].id && after[i].vec == before[i].vec
         && |after[i].links| == |before[i].links|
  }

  lemma PushedIsOneMore<V>(was: seq<Node<V>>, pushed: seq<Node<V>>, nodes: seq<Node<V>>, id: ContentHash, vec: V,
                           level: nat)
    requires pushed == was + [Node(id, vec, seq(level + 1, _ => []))]
    requires pushed == nodes || SameNodes(pushed, nodes)
    ensures OneMore(was, nodes, id, vec, level)
  {
  }

  lemma InsertedKeeps<V>(sp: Space<V>, before: seq<Node<V>>, after: seq<Node<V>>, m: nat, ef: nat, newest: nat,
                         layers: nat, start: nat, steps: seq<LayerStep>)
    requires Inserted(sp, before, after, m, ef, newest, layers, start, steps)
    ensures SameNodes(before, after)
  {
  }

  lemma SameEverywhere<V>(a: seq<Node<V>>)
    ensures forall k: nat :: SameOnLayer(a, a, k)
  {
  }

  lemma SameOnLayerNodes<V>(a: seq<Node<V>>, b: seq<Node<V>>, k: nat)
    requires SameOnLayer(a, b, k)
    ensures SameNodes(a, b)
  {
  }

  lemma UnlinkedTransfers<V>(a: seq<Node<V>>, b: seq<Node<V>>, newest: nat, k: nat)
    requires SameOnLayer(a, b, k) && OnLayer(a, newest, k) && a[newest].links[k] == [] && Unlinked(a, newest, k)
    ensures OnLayer(b, newest, k) && b[newest].links[k] == [] && Unlinked(b, newest, k)
  {
  }

  lemma OtherLayerIsSame<V>(a: seq<Node<V>>, b: seq<Node<V>>, c: seq<Node<V>>, layer: nat, k: nat)
    requires SameOnLayer(a, b, k) && SameNodes(b, c) && OtherLayersSame(b, c, layer) && k != layer
    ensures SameOnLayer(a, c, k) && SameOnLayer(b, c, k)
  {
  }

  /** Linking layer `l` finishes it and disturbs no other. */
  lemma LayerAdded<V>(sp: Space<V>, was: seq<Node<V>>, before: seq<Node<V>>, after: seq<Node<V>>, m: nat, ef: nat,
                      newest: nat,
                      start: nat, steps: seq<LayerStep>, steps': seq<LayerStep>, layers: nat, l: nat, step: LayerStep)
    requires l < layers == |steps| && SameNodes(before, after) && OtherLayersSame(before, after, l)
    requires forall k :: 0 <= k <= l || layers <= k ==> SameOnLayer(was, before, k)
    requires forall k :: l < k < layers ==> LayerDone(sp, was, before, m, ef, newest, start, steps, k)
    requires step.found != [] && step.start == StartOf(steps, start, l) && steps' == steps[l := step]
    requires LayerLinked(sp, before, after, m, ef, newest, l, step)
    ensures forall k :: 0 <= k < l || layers <= k ==> SameOnLayer(was, after, k)
    ensures forall k :: l <= k < layers ==> LayerDone(sp, was, after, m, ef, newest, start, steps', k)
    ensures |after| == |before| && forall i :: 0 <= i < |after| ==> |after[i].links| == |before[i].links|
  {
    hide LayerLinked, SameOnLayer, OtherLayersSame;
    SameEverywhere(before);
    SameEverywhere(after);
    SameEverywhere(was);
    forall k: nat | 0 <= k < l || layers <= k ensures SameOnLayer(was, after, k) {
      OtherLayerIsSame(was, before, after, l, k);
    }
    SameIsSymmetric(was, before, l);
    LayerLinkedTransfers(sp, before, was, after, after, m, ef, newest, l, step);
    forall k: nat | l < k < layers ensures LayerDone(sp, was, after, m, ef, newest, start, steps', k) {
      assert LayerDone(sp, was, before, m, ef, newest, start, steps, k);
      OtherLayerIsSame(before, before, after, l, k);
      LayerLinkedTransfers(sp, was, was, before, after, m, ef, newest, k, steps[k]);
    }
  }

  lemma SameIsSymmetric<V>(a: seq<Node<V>>, b: seq<Node<V>>, k: nat)
    requires SameOnLayer(a, b, k)
    ensures SameOnLayer(b, a, k)
  {
  }

  lemma EntryFacts<V>(nodes: seq<Node<V>>, entry: Option<nat>)
    requires EntryOk(nodes, entry)
    ensures entry.None? <==> nodes == []
    ensures entry.Some? ==>
      && entry.value < |nodes|
      && forall i :: 0 <= i < |nodes| ==> |nodes[i].links| <= |nodes[entry.value].links|
  {
  }

  /** After a push the entry is whichever of the old entry and the new node is higher. */
  lemma EntryKept<V>(was: seq<Node<V>>, pushed: seq<Node<V>>, first: nat)
    requires |pushed| == |was| + 1 && pushed[..|was|] == was
    requires if was == [] then first == 0
             else first < |was| && forall i :: 0 <= i < |was| ==> |was[i].links| <= |was[first].links|
    ensures EntryOk(pushed, Some(if |pushed[|was|].links| > |pushed[first].links| then |was| else first))
    ensures was != [] ==>
      && pushed[first] == was[first]
      && forall i :: 0 <= i < |was| ==> |pushed[i].links| <= |pushed[first].links|
  {
    assert forall i :: 0 <= i < |was| ==> pushed[i] == pushed[..|was|][i] == was[i];
  }

  lemma SameLevels<V>(a: seq<Node<V>>, b: seq<Node<V>>, entry: Option<nat>)
    requires |a| == |b| && forall i :: 0 <= i < |a| ==> |b[i].links| == |a[i].links|
    requires EntryOk(a, entry)
    ensures EntryOk(b, entry)
  {
  }

  /** Nothing leads onto the node just pushed, so the descent does not end there. */
  lemma DescentOffNewest<V>(sp: Space<V>, nodes: seq<Node<V>>, ep: nat, bottom: nat, newest: nat)
    requires newest < |nodes| && |nodes[newest].links| <= bottom
    ensures OnLayer(nodes, ep, bottom) ==> ep != newest
  {
  }

  // ---- what linking one node leaves alone ----

  /** Lists differ only on the layer and only at the given nodes. */
  ghost predicate OnlyListsChanged<V>(a: seq<Node<V>>, b: seq<Node<V>>, layer: nat, at: set<nat>) {
    |a| == |b| && forall i :: 0 <= i < |a| ==>
      && |a[i].links| == |b[i].links|
      && (i !in at ==> a[i].links == b[i].links)
      && (forall l :: 0 <= l < |a[i].links| && l != layer ==> a[i].links[l] == b[i].links[l])
  }

  ghost predicate OtherLayersSame<V>(a: seq<Node<V>>, b: seq<Node<V>>, layer: nat) {
    |a| == |b| && forall i :: 0 <= i < |a| ==>
      && |a[i].links| == |b[i].links|
      && (forall l :: 0 <= l < |a[i].links| && l != layer ==> a[i].links[l] == b[i].links[l])
  }

  lemma AppendValid<V>(nodes: seq<Node<V>>, m: nat, i: nat, layer: nat, x: nat)
    requires WiredBut(nodes, m, i, layer) && OnLayer(nodes, i, layer) && OnLayer(nodes, x, layer) && x != i
    requires x !in nodes[i].links[layer]
    ensures LinksValid(nodes, i, layer, nodes[i].links[layer] + [x])
  {
    assert LinksValid(nodes, i, layer, nodes[i].links[layer]);
  }

  lemma ListIsValid<V>(nodes: seq<Node<V>>, m: nat, i: nat, layer: nat)
    requires WiredBut(nodes, m, i, layer) && OnLayer(nodes, i, layer)
    ensures LinksValid(nodes, i, layer, nodes[i].links[layer])
  {
  }

  lemma SelectedIsValid<V>(sp: Space<V>, nodes: seq<Node<V>>, m: nat, i: nat, layer: nat, links: seq<nat>,
                           scored: seq<Scored>,
                           kept: seq<Scored>, chosen: seq<nat>)
    requires i < |nodes| && LinksValid(nodes, i, layer, links) && ScoresOf(sp, nodes, nodes[i].vec, links, scored)
    requires Selection(sp, nodes, scored, MaxDegree(m, layer), kept, chosen)
    ensures LinksValid(nodes, i, layer, chosen) && |chosen| <= MaxDegree(m, layer)
  {
    hide Diverse;
    forall x | x in chosen ensures x in links {
      var p :| p in scored && p.1 == x;
    }
  }

  lemma ReselectedBack<V>(sp: Space<V>, a: seq<Node<V>>, b: seq<Node<V>>, m: nat, node: nat, layer: nat,
                          full: seq<nat>, links: seq<nat>)
    requires SameNodes(a, b) && Reselected(sp, b, m, node, layer, full, links)
    ensures Reselected(sp, a, m, node, layer, full, links)
  {
    hide Reselected;
    assert SameNodes(b, a);
    ReselectedTransfers(sp, b, a, m, node, layer, full, links);
  }

  lemma LinkNone<V>(sp: Space<V>, nodes: seq<Node<V>>, m: nat, newest: nat, layer: nat)
    requires OnLayer(nodes, newest, layer) && nodes[newest].links[layer] == []
    ensures LinkedTo(sp, nodes, nodes, m, newest, layer, []) && OtherLayersSame(nodes, nodes, layer)
  {
  }

  lemma StillUnlinked<V>(sp: Space<V>, was: seq<Node<V>>, nodes: seq<Node<V>>, m: nat, newest: nat, layer: nat,
                         done: seq<nat>, nb: nat)
    requires LinkedTo(sp, was, nodes, m, newest, layer, done) && OnLayer(was, nb, layer) && nb != newest && nb !in done
    requires Unlinked(was, newest, layer)
    ensures OnLayer(nodes, newest, layer) && OnLayer(nodes, nb, layer) && nodes[newest].links[layer] == done
    ensures newest !in nodes[nb].links[layer]
  {
    hide Reselected;
  }

  lemma LinkOneMore<V>(sp: Space<V>, was: seq<Node<V>>, before: seq<Node<V>>, after: seq<Node<V>>, m: nat,
                       newest: nat, layer: nat,
                       done: seq<nat>, nb: nat)
    requires LinkedTo(sp, was, before, m, newest, layer, done) && OtherLayersSame(was, before, layer)
    requires OnLayer(was, nb, layer) && nb != newest && nb !in done && newest !in done
    requires SameNodes(before, after) && OnlyListsChanged(before, after, layer, {newest, nb})
    requires after[newest].links[layer] == done + [nb]
    requires Reselected(sp, before, m, nb, layer, before[nb].links[layer] + [newest], after[nb].links[layer])
    ensures LinkedTo(sp, was, after, m, newest, layer, done + [nb]) && OtherLayersSame(was, after, layer)
  {
    hide Reselected;
    ReselectedBack(sp, was, before, m, nb, layer, before[nb].links[layer] + [newest], after[nb].links[layer]);
    forall i | i in done + [nb]
      ensures OnLayer(was, i, layer)
              && Reselected(sp, was, m, i, layer, was[i].links[layer] + [newest], after[i].links[layer])
    {
      assert i == nb || i in done;
    }
  }

  lemma LinkedFacts<V>(sp: Space<V>, was: seq<Node<V>>, nodes: seq<Node<V>>, m: nat, newest: nat, layer: nat,
                       done: seq<nat>)
    requires LinkedTo(sp, was, nodes, m, newest, layer, done)
    ensures SameNodes(was, nodes) && OnLayer(nodes, newest, layer) && nodes[newest].links[layer] == done
  {
  }

  /** A search that cannot step onto `newest` finds distinct nodes of the layer other than it. */
  lemma FoundIsLinkable<V>(sp: Space<V>, nodes: seq<Node<V>>, start: nat, q: V, ef: nat, layer: nat, found: seq<Scored>,
                           visited: set<nat>, expanded: set<nat>, newest: nat)
    requires BeamResult(sp, nodes, start, q, ef, layer, found, visited, expanded)
    requires OnLayer(nodes, start, layer) && start != newest && Unlinked(nodes, newest, layer)
    ensures found != [] && DistinctNodes(found) && InRange(nodes, found)
    ensures forall k :: 0 <= k < |found| ==> found[k].1 != newest && OnLayer(nodes, found[k].1, layer)
  {
    assert forall p :: p in found ==> p.1 in visited;
    forall k | 0 <= k < |found| ensures found[k].1 != newest && OnLayer(nodes, found[k].1, layer) {
      assert found[k] in found;
      var p :| WalkFromTo(nodes, layer, p, start, found[k].1);
      NeverSteppedOn(nodes, layer, newest, p, |p| - 1);
    }
    forall i, j | 0 <= i < j < |found| ensures found[i].1 != found[j].1 {
      assert found[i] in found && found[j] in found;
    }
  }

  lemma {:induction false} NeverSteppedOn<V>(nodes: seq<Node<V>>, layer: nat, newest: nat, p: seq<nat>, i: nat)
    requires i < |p| && Walk(nodes, layer, p) && p[0] != newest && Unlinked(nodes, newest, layer)
    ensures p[i] != newest
  {
    if i > 0 {
      assert OnLayer(nodes, p[i - 1], layer) && p[i - 1 + 1] in nodes[p[i - 1]].links[layer];
    }
  }

  lemma ChosenIsLinkable<V>(sp: Space<V>, nodes: seq<Node<V>>, found: seq<Scored>, m: nat, kept: seq<Scored>,
                            chosen: seq<nat>,
                            newest: nat, layer: nat)
    requires Selection(sp, nodes, found, m, kept, chosen)
    requires forall k :: 0 <= k < |found| ==> found[k].1 != newest && OnLayer(nodes, found[k].1, layer)
    ensures Distinct(chosen) && |chosen| <= m
    ensures forall k :: 0 <= k < |chosen| ==> chosen[k] != newest && OnLayer(nodes, chosen[k], layer)
  {
    forall k | 0 <= k < |chosen| ensures chosen[k] != newest && OnLayer(nodes, chosen[k], layer) {
      assert chosen[k] in chosen;
      var p :| p in found && p.1 == chosen[k];
    }
  }

  /** Score a list of nodes against `q`, best first. */
  method ScoreAndSort<V>(sp: Space<V>, nodes: seq<Node<V>>, links: seq<nat>, q: V) returns (scored: seq<Scored>)
    requires Distinct(links) && forall x :: x in links ==> x < |nodes|
    ensures ScoresOf(sp, nodes, q, links, scored)
  {
    hide Sort;
    assert forall k :: 0 <= k < |links| ==> links[k] in links;
    var raw := seq(|links|, k requires 0 <= k < |links| => (Similarity(sp, nodes, links[k], q), links[k]));
    scored := Sort(ScoredGe, raw);
    ScoredGeIsTotalOrder();
    SortSorts(ScoredGe, raw);
    assert DistinctNodes(raw) && Distinct(raw);
    SortKeepsDistinct(raw, scored);
    forall k | 0 <= k < |scored| ensures scored[k] in raw { assert scored[k] in scored; }
  }

  lemma SortKeepsDistinct(raw: seq<Scored>, scored: seq<Scored>)
    requires DistinctNodes(raw) && multiset(raw) == multiset(scored)
    ensures DistinctNodes(scored)
  {
    forall i, j | 0 <= i < j < |scored| ensures scored[i].1 != scored[j].1 {
      assert scored[i] in multiset(raw) && scored[j] in multiset(raw);
      if scored[i] == scored[j] {
        assert scored == scored[..j] + [scored[j]] + scored[j + 1..];
        assert scored[i] in scored[..j];
        assert multiset(scored)[scored[i]] >= 2;
        ScoredOnce(raw, scored[i]);
      }
    }
  }

  lemma {:induction false} ScoredOnce(s: seq<Scored>, x: Scored)
    requires DistinctNodes(s)
    ensures multiset(s)[x] <= 1
  {
    if s != [] {
      assert s == [s[0]] + s[1..];
      assert forall k :: 0 <= k < |s[1..]| ==> s[1..][k] == s[k + 1];
      ScoredOnce(s[1..], x);
    }
  }
}
