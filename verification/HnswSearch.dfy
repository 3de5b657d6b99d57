/** Beam search on one layer (Algorithm 2 of Malkov and Yashunin 2016). */
module HnswSearch {
  import opened Sorting
  import opened HnswGraph

  function AtLeastOne(ef: nat): nat { if ef == 0 then 1 else ef }

  /** What leaves is the least similar, and of equally similar nodes the oldest. */
  ghost predicate LowestGoes(best: set<Scored>, best': set<Scored>) {
    forall x, b :: x in best && x !in best' && b in best' ==> x.0 < b.0 || (x.0 == b.0 && x.1 < b.1)
  }

  /** Offer a newly visited node to the frontier and to the running best-`ef`. */
  method Offer(best: set<Scored>, candidates: set<Scored>, p: Scored, ef: nat)
    returns (best': set<Scored>, candidates': set<Scored>)
    requires best != {} && p !in best && |best| <= AtLeastOne(ef)
    ensures best' <= best + {p} && best' != {} && |best| <= |best'| <= AtLeastOne(ef)
    ensures candidates <= candidates' <= candidates + {p} && (p in best' ==> p in candidates')
    ensures forall x :: x in best + {p} && x !in best' ==> |best'| >= ef && forall b :: b in best' ==> x.0 <= b.0
    ensures p in best' && |best| >= ef ==> exists b :: b in best && b.0 < p.0
    ensures LowestGoes(best, best')
  {
    best', candidates' := best, candidates;
    var floor := Least(best);
    if |best| < ef || p.0 > floor.0 {
      candidates' := candidates + {p};
      best' := best + {p};
      if |best'| > ef {
        var low := Least(best');
        best' := best' - {low};
      }
    }
  }

  /** The best first, as `into_iter` and the descending sort leave them. */
  method IntoSorted(best: set<Scored>) returns (out: seq<Scored>)
    ensures Sorted(ScoredGe, out) && Distinct(out) && |out| == |best|
    ensures forall p :: p in out <==> p in best
  {
    out := [];
    var rest := best;
    while rest != {}
      invariant Sorted(ScoredGe, out) && Distinct(out) && |out| + |rest| == |best|
      invariant rest <= best && forall p :: p in out <==> p in best - rest
      invariant forall p, x :: p in out && x in rest ==> ScoredGe(p, x)
      decreases rest
    {
      var top := Greatest(rest);
      assert top !in out;
      out, rest := out + [top], rest - {top};
    }
  }

  // ---- the state of the search ----

  ghost predicate ScoredRight<V>(sp: Space<V>, nodes: seq<Node<V>>, q: V, layer: nat, visited: set<nat>, p: Scored) {
    p.1 in visited && OnLayer(nodes, p.1, layer) && p.0 == Similarity(sp, nodes, p.1, q)
  }

  /** A visited node is among the best, or the best are full and all at least as good. */
  ghost predicate KeptOrBeaten<V>(sp: Space<V>, nodes: seq<Node<V>>, q: V, ef: nat, best: set<Scored>, x: nat)
    requires x < |nodes|
  {
    || (Similarity(sp, nodes, x, q), x) in best
    || (|best| >= ef && forall b :: b in best ==> Similarity(sp, nodes, x, q) <= b.0)
  }

  ghost predicate Beam<V>(sp: Space<V>, nodes: seq<Node<V>>, start: nat, q: V, ef: nat, layer: nat,
                          visited: set<nat>, candidates: set<Scored>, best: set<Scored>)
  {
    && best != {} && |best| <= AtLeastOne(ef)
    && start in visited
    && (forall p :: p in candidates || p in best ==> ScoredRight(sp, nodes, q, layer, visited, p))
    && (forall x :: x in visited ==> OnLayer(nodes, x, layer) && Reachable(nodes, layer, start, x))
    && (forall x :: x in visited ==> KeptOrBeaten(sp, nodes, q, ef, best, x))
  }

  ghost predicate AllLinksVisited<V>(nodes: seq<Node<V>>, layer: nat, i: nat, visited: set<nat>) {
    OnLayer(nodes, i, layer) && forall x :: x in nodes[i].links[layer] ==> x in visited
  }

  /** Offering an unvisited link keeps the search state. */
  lemma OfferKeepsBeam<V>(sp: Space<V>, nodes: seq<Node<V>>, start: nat, q: V, ef: nat, layer: nat, visited: set<nat>,
                          candidates: set<Scored>, best: set<Scored>, nb: nat,
                          candidates': set<Scored>, best': set<Scored>)
    requires Beam(sp, nodes, start, q, ef, layer, visited, candidates, best)
    requires nb !in visited && OnLayer(nodes, nb, layer) && Reachable(nodes, layer, start, nb)
    requires var p := (Similarity(sp, nodes, nb, q), nb);
      && best' <= best + {p} && best' != {} && |best| <= |best'| <= AtLeastOne(ef)
      && candidates' <= candidates + {p}
      && (forall x :: x in best + {p} && x !in best' ==> |best'| >= ef && forall b :: b in best' ==> x.0 <= b.0)
      && (p in best' && |best| >= ef ==> exists b :: b in best && b.0 < p.0)
    ensures Beam(sp, nodes, start, q, ef, layer, visited + {nb}, candidates', best')
  {
    hide Reachable;
    var p := (Similarity(sp, nodes, nb, q), nb);
    forall x | x in visited + {nb} ensures KeptOrBeaten(sp, nodes, q, ef, best', x) {
      var s := (Similarity(sp, nodes, x, q), x);
      if s !in best + {p} {
        assert KeptOrBeaten(sp, nodes, q, ef, best, x);
        forall b | b in best' ensures s.0 <= b.0 {
          if b == p && b !in best { var low :| low in best && low.0 < p.0; }
        }
      }
    }
  }

  // ---- the search ----

  /** What the search hands back, with the nodes it looked at and those it expanded. */
  ghost predicate BeamResult<V>(sp: Space<V>, nodes: seq<Node<V>>, start: nat, q: V, ef: nat, layer: nat,
                                out: seq<Scored>, visited: set<nat>, expanded: set<nat>)
  {
    && Sorted(ScoredGe, out) && Distinct(out) && 0 < |out| <= AtLeastOne(ef)
    && start in visited && expanded <= visited
    && (forall x :: x in visited ==> OnLayer(nodes, x, layer) && Reachable(nodes, layer, start, x))
    && (forall p :: p in out ==> p.1 in expanded && p.1 < |nodes| && p.0 == Similarity(sp, nodes, p.1, q))
    && (forall i :: i in expanded ==> AllLinksVisited(nodes, layer, i, visited))
    && (forall x :: x in visited && (Similarity(sp, nodes, x, q), x) !in out ==>
          |out| >= ef && Similarity(sp, nodes, x, q) <= out[|out| - 1].0)
  }

  /** Some visited and expanded nodes make `out` a beam search result. */
  ghost predicate Found<V>(sp: Space<V>, nodes: seq<Node<V>>, start: nat, q: V, ef: nat, layer: nat, out: seq<Scored>) {
    exists visited, expanded :: BeamResult(sp, nodes, start, q, ef, layer, out, visited, expanded)
  }

  method SearchLayer<V>(sp: Space<V>, nodes: seq<Node<V>>, m: nat, start: nat, q: V, ef: nat, layer: nat)
    returns (out: seq<Scored>, ghost visited: set<nat>, ghost expanded: set<nat>)
    requires Wired(nodes, m) && OnLayer(nodes, start, layer)
    ensures BeamResult(sp, nodes, start, q, ef, layer, out, visited, expanded)
    ensures Found(sp, nodes, start, q, ef, layer, out)
    ensures forall i, j :: 0 <= i < j < |out| ==> out[i].0 > out[j].0 || (out[i].0 == out[j].0 && out[i].1 > out[j].1)
  {
    hide Beam, Reachable, Wired;
    var seen: set<nat> := {start};
    var first := (Similarity(sp, nodes, start, q), start);
    var candidates, best := {first}, {first};
    expanded := {};
    BeamStarts(sp, nodes, start, q, ef, layer);
    while candidates != {}
      invariant Beam(sp, nodes, start, q, ef, layer, seen, candidates, best)
      invariant expanded <= seen && forall i :: i in expanded ==> AllLinksVisited(nodes, layer, i, seen)
      invariant forall p :: p in best ==> p in candidates || p.1 in expanded
      decreases (set i | 0 <= i < |nodes| && OnLayer(nodes, i, layer)) - seen, candidates
    {
      var top := Greatest(candidates);
      PopKeepsBeam(sp, nodes, start, q, ef, layer, seen, candidates, best, top);
      var floor := Least(best);
      if top.0 < floor.0 && |best| >= ef {
        // everything still on the frontier is worse than every node kept
        assert forall p :: p in best ==> p.1 in expanded;
        break;
      }
      var rest := candidates - {top};
      var seen', candidates', best' := Expand(sp, nodes, m, start, q, ef, layer, top.1, seen, rest, best, expanded);
      if seen' != seen {
        var x :| x in seen' && x !in seen;
        BeamFacts(sp, nodes, start, q, ef, layer, seen', candidates', best', x);
      }
      seen, candidates, best := seen', candidates', best';
      expanded := expanded + {top.1};
    }
    visited := seen;
    out := IntoSorted(best);
    BestIsResult(sp, nodes, start, q, ef, layer, out, best, candidates, visited, expanded);
  }

  lemma BeamStarts<V>(sp: Space<V>, nodes: seq<Node<V>>, start: nat, q: V, ef: nat, layer: nat)
    requires OnLayer(nodes, start, layer)
    ensures var first := (Similarity(sp, nodes, start, q), start);
      Beam(sp, nodes, start, q, ef, layer, {start}, {first}, {first})
  {
    ReachItself(nodes, layer, start);
  }

  lemma PopKeepsBeam<V>(sp: Space<V>, nodes: seq<Node<V>>, start: nat, q: V, ef: nat, layer: nat, visited: set<nat>,
                        candidates: set<Scored>, best: set<Scored>, top: Scored)
    requires Beam(sp, nodes, start, q, ef, layer, visited, candidates, best) && top in candidates
    ensures Beam(sp, nodes, start, q, ef, layer, visited, candidates - {top}, best)
    ensures best != {} && top.1 in visited
  {
    assert ScoredRight(sp, nodes, q, layer, visited, top);
  }

  lemma BeamFacts<V>(sp: Space<V>, nodes: seq<Node<V>>, start: nat, q: V, ef: nat, layer: nat, visited: set<nat>,
                     candidates: set<Scored>, best: set<Scored>, node: nat)
    requires Beam(sp, nodes, start, q, ef, layer, visited, candidates, best) && node in visited
    ensures best != {} && |best| <= AtLeastOne(ef) && forall p :: p in best ==> p.1 in visited
    ensures OnLayer(nodes, node, layer) && Reachable(nodes, layer, start, node)
  {
  }

  lemma WiredLinks<V>(nodes: seq<Node<V>>, m: nat, i: nat, layer: nat)
    requires Wired(nodes, m) && OnLayer(nodes, i, layer)
    ensures LinksOk(nodes, m, i, layer, nodes[i].links[layer])
  {
  }

  /** Visit every link of one node. */
  method Expand<V>(sp: Space<V>, nodes: seq<Node<V>>, m: nat, start: nat, q: V, ef: nat, layer: nat, node: nat,
                   seen0: set<nat>, candidates0: set<Scored>, best0: set<Scored>, ghost expanded: set<nat>)
    returns (seen: set<nat>, candidates: set<Scored>, best: set<Scored>)
    requires Wired(nodes, m) && node in seen0
    requires Beam(sp, nodes, start, q, ef, layer, seen0, candidates0, best0)
    requires forall p :: p in best0 ==> p in candidates0 || p.1 in expanded || p.1 == node
    ensures Beam(sp, nodes, start, q, ef, layer, seen, candidates, best)
    ensures seen0 <= seen && AllLinksVisited(nodes, layer, node, seen)
    ensures seen == seen0 ==> candidates == candidates0
    ensures forall p :: p in best ==> p in candidates || p.1 in expanded || p.1 == node
  {
    hide Beam, Reachable, Wired, LowestGoes;
    seen, candidates, best := seen0, candidates0, best0;
    BeamFacts(sp, nodes, start, q, ef, layer, seen, candidates, best, node);
    var links := nodes[node].links[layer];
    WiredLinks(nodes, m, node, layer);
    for j := 0 to |links|
      invariant Beam(sp, nodes, start, q, ef, layer, seen, candidates, best)
      invariant seen0 <= seen && (seen == seen0 ==> candidates == candidates0)
      invariant forall t :: 0 <= t < j ==> links[t] in seen
      invariant forall p :: p in best ==> p in candidates || p.1 in expanded || p.1 == node
    {
      var nb := links[j];
      assert nb in links;
      if nb !in seen {
        BeamFacts(sp, nodes, start, q, ef, layer, seen, candidates, best, node);
        ReachOneMore(nodes, layer, start, node, nb);
        var s := Similarity(sp, nodes, nb, q);
        var best', candidates' := Offer(best, candidates, (s, nb), ef);
        OfferKeepsBeam(sp, nodes, start, q, ef, layer, seen, candidates, best, nb, candidates', best');
        seen, candidates, best := seen + {nb}, candidates', best';
      }
    }
  }

  lemma BestIsResult<V>(sp: Space<V>, nodes: seq<Node<V>>, start: nat, q: V, ef: nat, layer: nat, out: seq<Scored>,
                        best: set<Scored>, candidates: set<Scored>, visited: set<nat>, expanded: set<nat>)
    requires Beam(sp, nodes, start, q, ef, layer, visited, candidates, best)
    requires expanded <= visited && forall i :: i in expanded ==> AllLinksVisited(nodes, layer, i, visited)
    requires forall p :: p in best ==> p.1 in expanded
    requires Sorted(ScoredGe, out) && Distinct(out) && |out| == |best| && forall p :: p in out <==> p in best
    ensures BeamResult(sp, nodes, start, q, ef, layer, out, visited, expanded)
  {
    var last := out[|out| - 1];
    assert last in best;
    forall x | x in visited && (Similarity(sp, nodes, x, q), x) !in out
      ensures |out| >= ef && Similarity(sp, nodes, x, q) <= last.0
    {
      assert KeptOrBeaten(sp, nodes, q, ef, best, x);
    }
  }

  // ---- what the result means ----

  /** No out-link of a returned node beats the result set. */
  lemma NoLinkBeatsResult<V>(sp: Space<V>, nodes: seq<Node<V>>, start: nat, q: V, ef: nat, layer: nat, out: seq<Scored>,
                             visited: set<nat>, expanded: set<nat>, r: Scored, x: nat)
    requires BeamResult(sp, nodes, start, q, ef, layer, out, visited, expanded)
    requires r in out && x in nodes[r.1].links[layer]
    ensures x < |nodes| && ((Similarity(sp, nodes, x, q), x) in out || Similarity(sp, nodes, x, q) <= out[|out| - 1].0)
  {
    assert AllLinksVisited(nodes, layer, r.1, visited);
  }

  ghost function NodesOf(out: seq<Scored>): set<nat> {
    set p | p in out :: p.1
  }

  lemma {:induction false} CountNodes<V>(sp: Space<V>, nodes: seq<Node<V>>, q: V, out: seq<Scored>)
    requires Distinct(out) && forall p :: p in out ==> p.1 < |nodes| && p.0 == Similarity(sp, nodes, p.1, q)
    ensures |NodesOf(out)| == |out|
  {
    if out != [] {
      var init, last := out[..|out| - 1], out[|out| - 1];
      assert out == init + [last];
      CountNodes(sp, nodes, q, init);
      assert NodesOf(out) == NodesOf(init) + {last.1};
      assert forall p :: p in init ==> p != last && p.1 != last.1;
    }
  }

  /** A beam at least as wide as the reachable part of the layer finds all of it. */
  lemma WideBeamIsExhaustive<V>(sp: Space<V>, nodes: seq<Node<V>>, start: nat, q: V, ef: nat, layer: nat,
                                out: seq<Scored>, visited: set<nat>, expanded: set<nat>)
    requires BeamResult(sp, nodes, start, q, ef, layer, out, visited, expanded)
    requires |ReachSet(nodes, layer, start)| <= ef
    ensures NodesOf(out) == ReachSet(nodes, layer, start)
  {
    var reach, got := ReachSet(nodes, layer, start), NodesOf(out);
    CountNodes(sp, nodes, q, out);
    assert got <= visited <= reach;
    if |out| >= ef {
      SubsetOfSameSize(got, reach);
    } else {
      forall x | x in visited ensures x in got {
        assert (Similarity(sp, nodes, x, q), x) in out;
      }
      assert forall i :: i in got ==> AllLinksVisited(nodes, layer, i, visited);
      assert Closed(nodes, layer, visited);
      forall b | b in reach ensures b in got {
        var p :| WalkFromTo(nodes, layer, p, start, b);
        WalkStaysIn(nodes, layer, visited, p, |p| - 1);
      }
    }
  }

  lemma SubsetOfSameSize(a: set<nat>, b: set<nat>)
    requires a <= b && |a| >= |b|
    ensures a == b
  {
    assert |b - a| == |b| - |a|;
  }
}
