/** The exact index (crates/mem-index/src/index.rs) and when the graph index agrees with it. */
module BruteForce {
  import opened Sorting
  import opened Core
  import opened HnswGraph
  import opened HnswSearch
  import opened HnswSelect
  import opened HnswLink
  import opened HnswIndex

  function Scores(hits: seq<Neighbor>): seq<int> {
    seq(|hits|, i requires 0 <= i < |hits| => hits[i].score)
  }

  function Take<T>(s: seq<T>, k: nat): seq<T> { if k <= |s| then s[..k] else s }

  datatype Item<V> = Item(id: ContentHash, raw: V)

  function ScoreAll<V>(cosine: (V, V) -> int, items: seq<Item<V>>, q: V): seq<Neighbor> {
    seq(|items|, i requires 0 <= i < |items| => Neighbor(items[i].id, cosine(q, items[i].raw)))
  }

  class BruteForceIndex<!V> {
    const sp: Space<V>
    const cosine: (V, V) -> int
    var model: Option<Bytes>
    var dim: Option<nat>
    var items: seq<Item<V>>

    constructor (space: Space<V>, similarity: (V, V) -> int)
      ensures items == [] && model == None && dim == None && sp == space && cosine == similarity
    {
      sp, cosine := space, similarity;
      model, dim, items := None, None, [];
    }

    function Check(v: Vector<V>): Option<IndexError>
      reads this
    {
      if model.Some? && model.value != v.model then Some(ModelMismatch)
      else if dim.Some? && dim.value != sp.dim(v.data) then Some(DimMismatch)
      else None
    }

    method Add(id: ContentHash, v: Vector<V>) returns (error: Option<IndexError>)
      modifies this
      ensures error == (if old(model).Some? && old(model) != Some(v.model) then Some(ModelMismatch)
                        else if old(dim).Some? && old(dim) != Some(sp.dim(v.data)) then Some(DimMismatch) else None)
      ensures items == if error.Some? then old(items) else old(items) + [Item(id, v.data)]
      ensures if error.Some? then model == old(model) && dim == old(dim)
              else model == Some(v.model) && dim == Some(sp.dim(v.data))
    {
      error := Check(v);
      if error.Some? { return; }
      model, dim := Some(v.model), Some(sp.dim(v.data));
      items := items + [Item(id, v.data)];
    }

    /** The `k` nearest items, ties in the order they were added. */
    method Search(q: Vector<V>, k: nat) returns (hits: seq<Neighbor>, error: Option<IndexError>, ghost xs: seq<nat>)
      ensures error == (if model.Some? && model != Some(q.model) then Some(ModelMismatch)
                        else if dim.Some? && dim != Some(sp.dim(q.data)) then Some(DimMismatch) else None)
      ensures error.Some? ==> hits == []
      ensures error.None? ==> hits == Take(Sort(ScoreGe, ScoreAll(cosine, items, q.data)), k)
      ensures error.None? ==> NearestItems(cosine, items, q.data, k, hits, xs)
    {
      hide Sort, ScoreAll, NearestItems, Places, KeepsTies;
      error, xs := Check(q), [];
      if error.Some? { return [], error, []; }
      var scored := Sort(ScoreGe, ScoreAll(cosine, items, q.data));
      hits := Take(scored, k);
      xs := SortIsStable(ScoreGe, ScoreAll(cosine, items, q.data));
      TakenAreNearest(cosine, items, q.data, k, scored, xs);
      xs := Take(xs, k);
    }
  }

  function ItemScorer<V>(cosine: (V, V) -> int, items: seq<Item<V>>, q: V): nat -> int {
    (x: nat) => if x < |items| then cosine(q, items[x].raw) else 0
  }

  /** `hits` report the items `xs`, which are `k` nearest ones or all of them: each with its own id
      and score, ties in the order of insertion. */
  ghost predicate NearestItems<V>(cosine: (V, V) -> int, items: seq<Item<V>>, q: V, k: nat,
                                  hits: seq<Neighbor>, xs: seq<nat>)
  {
    && |hits| == |xs| && (forall i :: 0 <= i < |xs| ==> xs[i] < |items|)
    && (forall i :: 0 <= i < |xs| ==>
          hits[i].id == items[xs[i]].id && hits[i].score == cosine(q, items[xs[i]].raw))
    && Closest(ItemScorer(cosine, items, q), UpTo(|items|), Min(k, |items|), xs)
    && (forall i, j :: 0 <= i < j < |hits| && hits[i].score == hits[j].score ==> xs[i] < xs[j])
  }

  lemma TakenAreNearest<V>(cosine: (V, V) -> int, items: seq<Item<V>>, q: V, k: nat, sorted: seq<Neighbor>,
                           xs: seq<nat>)
    requires sorted == Sort(ScoreGe, ScoreAll(cosine, items, q))
    requires Places(ScoreAll(cosine, items, q), sorted, xs) && KeepsTies(ScoreGe, sorted, xs)
    ensures NearestItems(cosine, items, q, k, Take(sorted, k), Take(xs, k))
  {
    hide Sort, Places, KeepsTies, ScoreAll, Closest, UpTo, Distinct, Sorted;
    SortSorts(ScoreGe, ScoreAll(cosine, items, q));
    SortedItems(cosine, items, q, sorted, xs);
    var n := Min(k, |items|);
    TakenAreClosest(ItemScorer(cosine, items, q), |items|, xs, n);
    TakeIsPrefix(sorted, k);
    TakeIsPrefix(xs, k);
  }

  lemma TakeIsPrefix<T>(s: seq<T>, k: nat)
    ensures Take(s, k) == s[..Min(k, |s|)]
  {
  }

  lemma TakenAreClosest(score: nat -> int, n: nat, xs: seq<nat>, k: nat)
    requires k <= n == |xs| && Distinct(xs) && forall i :: 0 <= i < n ==> xs[i] < n
    requires forall i, j :: 0 <= i < j < n ==> score(xs[i]) >= score(xs[j])
    ensures Closest(score, UpTo(n), k, xs[..k])
  {
    hide UpTo;
    var ys := xs[..k];
    assert |ys| == k && forall i :: 0 <= i < k ==> ys[i] == xs[i];
    if k > 0 {
      forall x | x in UpTo(n) && x !in ys ensures score(x) <= score(ys[k - 1]) {
        hide Distinct;
        var j := PlaceOfIndex(xs, n, x);
        assert j >= k by { NotInPrefix(xs, k, j); }
        assert j > k - 1 && score(xs[k - 1]) >= score(xs[j]);
      }
    }
  }

  lemma NotInPrefix(xs: seq<nat>, k: nat, j: nat)
    requires k <= |xs| && j < |xs| && xs[j] !in xs[..k]
    ensures j >= k
  {
  }

  ghost function UpTo(n: nat): (s: set<nat>)
    ensures |s| == n && forall i: nat :: i in s <==> i < n
  {
    if n == 0 then {} else UpTo(n - 1) + {n - 1}
  }

  /** The items in sorted order, each told by its index. */
  lemma SortedItems<V>(cosine: (V, V) -> int, items: seq<Item<V>>, q: V, sorted: seq<Neighbor>, xs: seq<nat>)
    requires Places(ScoreAll(cosine, items, q), sorted, xs) && KeepsTies(ScoreGe, sorted, xs) && Sorted(ScoreGe, sorted)
    ensures |xs| == |sorted| == |items| && Distinct(xs) && forall i :: 0 <= i < |xs| ==> xs[i] < |items|
    ensures forall i :: 0 <= i < |xs| ==>
      sorted[i].id == items[xs[i]].id && sorted[i].score == cosine(q, items[xs[i]].raw)
    ensures forall i, j :: 0 <= i < j < |xs| ==>
      sorted[i].score > sorted[j].score || (sorted[i].score == sorted[j].score && xs[i] < xs[j])
  {
    forall i, j | 0 <= i < j < |xs|
      ensures sorted[i].score > sorted[j].score || (sorted[i].score == sorted[j].score && xs[i] < xs[j])
    {
      assert ScoreGe(sorted[i], sorted[j]);
    }
  }

  /** Distinct indices below their number leave none out. */
  lemma PlaceOfIndex(xs: seq<nat>, n: nat, x: nat) returns (j: nat)
    requires |xs| == n && Distinct(xs) && (forall i :: 0 <= i < n ==> xs[i] < n) && x < n
    ensures j < n && xs[j] == x
  {
    var got := set i | 0 <= i < n :: xs[i];
    CountDistinct(xs, got);
    assert got <= UpTo(n);
    SubsetOfSameSize(got, UpTo(n));
    assert x in got;
    j :| 0 <= j < n && xs[j] == x;
  }

  lemma {:induction false} CountDistinct(xs: seq<nat>, got: set<nat>)
    requires Distinct(xs) && got == set i | 0 <= i < |xs| :: xs[i]
    ensures |got| == |xs|
  {
    if xs == [] {
      assert got == {};
    } else {
      var init, last := xs[..|xs| - 1], xs[|xs| - 1];
      var fewer := set i | 0 <= i < |init| :: init[i];
      CountDistinct(init, fewer);
      assert got == fewer + {last};
    }
  }

  // ---- permutations and their images ----

  function MapSeq<A, B>(f: A -> B, s: seq<A>): seq<B> {
    seq(|s|, i requires 0 <= i < |s| => f(s[i]))
  }

  lemma Without<T>(t: seq<T>, p: nat)
    requires p < |t|
    ensures multiset(t) == multiset(t[..p] + t[p + 1..]) + multiset{t[p]}
    ensures multiset(t[..p] + t[p + 1..]) == multiset(t) - multiset{t[p]}
  {
    assert t == t[..p] + [t[p]] + t[p + 1..];
  }

  lemma MapWithout<A, B>(f: A -> B, t: seq<A>, p: nat)
    requires p < |t|
    ensures multiset(MapSeq(f, t)) == multiset(MapSeq(f, t[..p] + t[p + 1..])) + multiset{f(t[p])}
  {
    var m := MapSeq(f, t);
    Without(m, p);
    assert MapSeq(f, t[..p] + t[p + 1..]) == m[..p] + m[p + 1..];
  }

  lemma DropBoth<T>(s: seq<T>, t: seq<T>, p: nat)
    requires s != [] && p < |t| && t[p] == s[0] && multiset(s) == multiset(t)
    ensures multiset(s[..0] + s[1..]) == multiset(t[..p] + t[p + 1..])
  {
    Without(s, 0);
    Without(t, p);
  }

  lemma {:induction false} MapMultiset<A, B>(f: A -> B, s: seq<A>, t: seq<A>)
    requires multiset(s) == multiset(t)
    ensures multiset(MapSeq(f, s)) == multiset(MapSeq(f, t))
  {
    hide MapSeq;
    assert |multiset(s)| == |s| && |multiset(t)| == |t|;
    if s == [] {
      assert t == [];
    } else {
      assert s[0] in multiset(t);
      var p :| 0 <= p < |t| && t[p] == s[0];
      DropBoth(s, t, p);
      MapMultiset(f, s[..0] + s[1..], t[..p] + t[p + 1..]);
      MapWithout(f, s, 0);
      MapWithout(f, t, p);
    }
  }

  lemma SameSetSameMultiset(s: seq<Scored>, t: seq<Scored>)
    requires DistinctNodes(s) && DistinctNodes(t) && forall x :: x in s <==> x in t
    ensures multiset(s) == multiset(t)
  {
    forall x ensures multiset(s)[x] == multiset(t)[x] {
      ScoredOnce(s, x);
      ScoredOnce(t, x);
      assert x in s <==> x in multiset(s);
      assert x in t <==> x in multiset(t);
    }
  }

  // ---- agreement ----

  function ScoreOf(p: Scored): int { p.0 }

  function NeighborScore(n: Neighbor): int { n.score }

  predicate IntGe(a: int, b: int) { a >= b }

  /** Both indexes hold the same vectors, the graph index normalised ones. */
  ghost predicate SameContents<V>(sp: Space<V>, cosine: (V, V) -> int, nodes: seq<Node<V>>, items: seq<Item<V>>, q: V) {
    && |nodes| == |items|
    && forall i :: 0 <= i < |nodes| ==>
         nodes[i].id == items[i].id && Similarity(sp, nodes, i, sp.normalized(q)) == cosine(q, items[i].raw)
  }

  /** The cosine of two vectors is the inner product of their normalised forms. */
  ghost predicate CosineIsDot<V(!new)>(sp: Space<V>, cosine: (V, V) -> int) {
    forall q, raw :: cosine(q, raw) == sp.dot(sp.normalized(raw), sp.normalized(q))
  }

  /** Node by item, the same id and the item's vector normalised. */
  ghost predicate Mirrors<V>(sp: Space<V>, nodes: seq<Node<V>>, items: seq<Item<V>>) {
    && |nodes| == |items|
    && forall i :: 0 <= i < |nodes| ==> nodes[i].id == items[i].id && nodes[i].vec == sp.normalized(items[i].raw)
  }

  lemma MirrorsHoldTheSame<V(!new)>(sp: Space<V>, cosine: (V, V) -> int, nodes: seq<Node<V>>, items: seq<Item<V>>, q: V)
    requires Mirrors(sp, nodes, items) && CosineIsDot(sp, cosine)
    ensures SameContents(sp, cosine, nodes, items, q)
  {
    forall i | 0 <= i < |nodes| ensures Similarity(sp, nodes, i, sp.normalized(q)) == cosine(q, items[i].raw) {
      assert cosine(q, items[i].raw) == sp.dot(sp.normalized(items[i].raw), sp.normalized(q));
    }
  }

  /** An insertion into one and an append to the other keep them mirrored. */
  lemma AddKeepsMirrors<V>(sp: Space<V>, nodes: seq<Node<V>>, nodes': seq<Node<V>>, items: seq<Item<V>>,
                           id: ContentHash, raw: V, links: seq<seq<nat>>)
    requires Mirrors(sp, nodes, items) && SameNodes(nodes + [Node(id, sp.normalized(raw), links)], nodes')
    ensures Mirrors(sp, nodes', items + [Item(id, raw)])
  {
    var pushed, now := nodes + [Node(id, sp.normalized(raw), links)], items + [Item(id, raw)];
    forall i | 0 <= i < |nodes'| ensures nodes'[i].id == now[i].id && nodes'[i].vec == sp.normalized(now[i].raw) {
      assert pushed[i].vec == nodes'[i].vec && pushed[i].id == nodes'[i].id;
    }
  }

  /** The graph index is exact when its pool is everything: for any `k` its scores are those of
      the brute-force index. */
  lemma ExactWhenPoolIsAll<V>(sp: Space<V>, cosine: (V, V) -> int, nodes: seq<Node<V>>, items: seq<Item<V>>, q: V,
                              pool: set<nat>, k: nat, hits: seq<Neighbor>)
    requires SameContents(sp, cosine, nodes, items, q)
    requires TopK(sp, nodes, sp.normalized(q), pool, k, hits) && forall i: nat :: i in pool <==> i < |nodes|
    ensures Scores(hits) == Scores(Take(Sort(ScoreGe, ScoreAll(cosine, items, q)), k))
  {
    hide Sort, Sorted, MapSeq, Scores, Take, Report;
    var qn := sp.normalized(q);
    var all :| Arrangement(sp, nodes, qn, pool, all) && hits == Report(nodes, all, k);
    var exact := Sort(ScoreGe, ScoreAll(cosine, items, q));
    ArrangementScores(sp, nodes, qn, pool, all);
    ExactScores(sp, cosine, nodes, items, q, exact);
    SortedUnique(IntGe, MapSeq(ScoreOf, all), MapSeq(NeighborScore, exact));
    TakeScores(nodes, all, exact, k);
  }

  lemma ExactScores<V>(sp: Space<V>, cosine: (V, V) -> int, nodes: seq<Node<V>>, items: seq<Item<V>>, q: V,
                       exact: seq<Neighbor>)
    requires SameContents(sp, cosine, nodes, items, q) && exact == Sort(ScoreGe, ScoreAll(cosine, items, q))
    ensures multiset(MapSeq(NeighborScore, exact))
         == multiset(seq(|nodes|, i requires 0 <= i < |nodes| => Similarity(sp, nodes, i, sp.normalized(q))))
    ensures Sorted(IntGe, MapSeq(NeighborScore, exact))
  {
    hide Sort;
    var scored := ScoreAll(cosine, items, q);
    SortSorts(ScoreGe, scored);
    MapMultiset(NeighborScore, exact, scored);
    var got := MapSeq(NeighborScore, exact);
    forall i, j | 0 <= i < j < |got| ensures IntGe(got[i], got[j]) { assert ScoreGe(exact[i], exact[j]); }
    assert MapSeq(NeighborScore, scored)
        == seq(|nodes|, i requires 0 <= i < |nodes| => Similarity(sp, nodes, i, sp.normalized(q)));
  }

  lemma TakeScores<V>(nodes: seq<Node<V>>, all: seq<Scored>, exact: seq<Neighbor>, k: nat)
    requires InRange(nodes, all) && MapSeq(ScoreOf, all) == MapSeq(NeighborScore, exact)
    ensures Scores(Report(nodes, all, k)) == Scores(Take(exact, k))
  {
    assert |MapSeq(ScoreOf, all)| == |all| && |MapSeq(NeighborScore, exact)| == |exact|;
    forall i | 0 <= i < |all| ensures all[i].0 == exact[i].score {
      assert MapSeq(ScoreOf, all)[i] == MapSeq(NeighborScore, exact)[i];
    }
  }

  lemma ArrangementScores<V>(sp: Space<V>, nodes: seq<Node<V>>, q: V, pool: set<nat>, all: seq<Scored>)
    requires Arrangement(sp, nodes, q, pool, all) && forall i: nat :: i in pool <==> i < |nodes|
    ensures multiset(MapSeq(ScoreOf, all))
         == multiset(seq(|nodes|, i requires 0 <= i < |nodes| => Similarity(sp, nodes, i, q)))
    ensures Sorted(IntGe, MapSeq(ScoreOf, all)) && TotalOrder(IntGe) && InRange(nodes, all)
  {
    var pairs: seq<Scored> := seq(|nodes|, i requires 0 <= i < |nodes| => (Similarity(sp, nodes, i, q), i));
    forall x ensures x in all <==> x in pairs {
      if x in all {
        assert x.1 in NodesOf(all);
        assert pairs[x.1] == x;
      }
      if x in pairs {
        assert x.1 in NodesOf(all);
        var p :| p in all && p.1 == x.1;
        assert p == x;
      }
    }
    SameSetSameMultiset(all, pairs);
    MapMultiset(ScoreOf, all, pairs);
    assert MapSeq(ScoreOf, pairs) == seq(|nodes|, i requires 0 <= i < |nodes| => Similarity(sp, nodes, i, q));
  }

  // ---- the two indexes side by side ----

  /** Two indexes that have been given the same vectors. */
  ghost predicate Paired<V>(h: HnswIndex<V>, b: BruteForceIndex<V>)
    reads h, b
  {
    && h.Valid() && h.sp == b.sp && h.model == b.model && h.dim == b.dim && Mirrors(h.sp, h.nodes, b.items)
  }

  /** The same vector offered to both is refused or taken by both. */
  method AddBoth<V>(h: HnswIndex<V>, b: BruteForceIndex<V>, id: ContentHash, v: Vector<V>)
    returns (error: Option<IndexError>)
    requires Paired(h, b)
    modifies h, b
    ensures Paired(h, b)
    ensures error.None? <==>
      && (old(b.model).None? || old(b.model) == Some(v.model))
      && (old(b.dim).None? || old(b.dim) == Some(b.sp.dim(v.data)))
    ensures error.Some? ==> b.items == old(b.items) && b.model == old(b.model) && b.dim == old(b.dim)
    ensures error.None? ==>
      b.items == old(b.items) + [Item(id, v.data)] && b.model == Some(v.model) && b.dim == Some(b.sp.dim(v.data))
  {
    hide Mirrors, LayerDone, SameOnLayer, SameNodes, LocallyBest, Wired, EntryOk;
    ghost var nodes, items := h.nodes, b.items;
    ghost var start, steps;
    error, start, steps := h.Add(id, v);
    var error' := b.Add(id, v);
    if error.None? {
      ghost var pushed := h.Pushed(nodes, id, v);
      if old(h.entry).None? { SameAsItself(pushed); }
      AddKeepsMirrors(h.sp, nodes, h.nodes, items, id, v.data, pushed[|nodes|].links);
    }
  }

  lemma SameAsItself<V>(nodes: seq<Node<V>>)
    ensures SameNodes(nodes, nodes)
  {
  }

  ghost predicate Fits<V>(sp: Space<V>, first: Vector<V>, v: Vector<V>) {
    v.model == first.model && sp.dim(v.data) == sp.dim(first.data)
  }

  /** The vectors of the first one's model and dimension, in the order offered. */
  ghost function Fitting<V>(sp: Space<V>, vectors: seq<(ContentHash, Vector<V>)>): seq<Item<V>> {
    if vectors == [] then []
    else
      var (id, v) := vectors[|vectors| - 1];
      Fitting(sp, vectors[..|vectors| - 1]) + if Fits(sp, vectors[0].1, v) then [Item(id, v.data)] else []
  }

  /** Two fresh indexes given the same vectors hold the same: those that fit the first. */
  method BuildPair<V>(space: Space<V>, similarity: (V, V) -> int, m: nat, efC: nat, efS: nat,
                      levels: ContentHash -> nat,
                      vectors: seq<(ContentHash, Vector<V>)>)
    returns (h: HnswIndex<V>, b: BruteForceIndex<V>)
    ensures fresh(h) && fresh(b) && Paired(h, b) && h.sp == space && b.cosine == similarity
    ensures b.items == Fitting(space, vectors)
  {
    hide Mirrors, Wired, EntryOk;
    h := new HnswIndex(space, m, efC, efS, levels);
    b := new BruteForceIndex(space, similarity);
    FreshMirrors(space);
    for i := 0 to |vectors|
      invariant fresh(h) && fresh(b) && Paired(h, b) && h.sp == space && b.cosine == similarity
      invariant b.items == Fitting(space, vectors[..i])
      invariant i == 0 ==> b.model == None && b.dim == None
      invariant i > 0 ==> b.model == Some(vectors[0].1.model) && b.dim == Some(space.dim(vectors[0].1.data))
    {
      var _ := AddBoth(h, b, vectors[i].0, vectors[i].1);
      assert vectors[..i + 1][..i] == vectors[..i];
    }
    assert vectors[..|vectors|] == vectors;
  }

  lemma FreshMirrors<V>(sp: Space<V>)
    ensures Mirrors<V>(sp, [], [])
  {
  }

  /** Every node can be reached on the bottom layer. */
  ghost predicate AllReached<V>(nodes: seq<Node<V>>, from: nat) {
    forall i: nat :: i < |nodes| ==> Reachable(nodes, 0, from, i)
  }

  /** Of two lists of nodes, the same ones but for those that tie with the last hit. */
  ghost predicate SameButTies<V>(sp: Space<V>, nodes: seq<Node<V>>, q: V, xs: seq<nat>, ys: seq<nat>, last: int) {
    forall x: nat :: x < |nodes| && sp.dot(nodes[x].vec, q) > last ==> (x in xs <==> x in ys)
  }

  /** Queried side by side, the two report the same errors; and when everything is reachable from
      the descent point and the beam is wide enough, the same scores, for the same nodes but for
      those that tie with the last. */
  method SearchBoth<V(!new)>(h: HnswIndex<V>, b: BruteForceIndex<V>, q: Vector<V>, k: nat)
    returns (fast: seq<Neighbor>, exact: seq<Neighbor>, error: Option<IndexError>, ghost from: nat,
             ghost xs: seq<nat>, ghost ys: seq<nat>)
    requires Paired(h, b) && CosineIsDot(h.sp, b.cosine)
    ensures error == h.Check(q) && (error.Some? ==> fast == [] == exact)
    ensures error.None? ==> NearestItems(b.cosine, b.items, q.data, k, exact, ys)
    ensures error.None? && h.nodes != [] && AllReached(h.nodes, from) && |h.nodes| <= Max(h.efSearch, k) ==>
      && Scores(fast) == Scores(exact)
      && Nearest(h.sp, h.nodes, h.sp.normalized(q.data), ReachSet(h.nodes, 0, from), k, fast, xs)
      && (fast != [] ==> SameButTies(h.sp, h.nodes, h.sp.normalized(q.data), xs, ys, fast[|fast| - 1].score))
  {
    hide Reachable, BeamResult, TopK, LocallyBest, Wired, Sort, Scores, CosineIsDot, Nearest, NearestItems, SameButTies;
    ghost var step;
    var error';
    fast, error, from, step := h.Search(q, k);
    exact, error', ys := b.Search(q, k);
    xs := [];
    if error.None? && h.nodes != [] && AllReached(h.nodes, from) && |h.nodes| <= Max(h.efSearch, k) {
      xs := FirstNodes(step.found, |fast|);
      EverythingReached(h.nodes, from);
      MirrorsHoldTheSame(h.sp, b.cosine, h.nodes, b.items, q.data);
      ExactWhenPoolIsAll(h.sp, b.cosine, h.nodes, b.items, q.data, ReachSet(h.nodes, 0, from), k, fast);
      BothNearest(h.sp, b.cosine, h.nodes, b.items, q.data, ReachSet(h.nodes, 0, from), k, fast, exact, xs, ys);
    }
  }

  lemma BothNearest<V>(sp: Space<V>, cosine: (V, V) -> int, nodes: seq<Node<V>>, items: seq<Item<V>>, q: V,
                       pool: set<nat>, k: nat, fast: seq<Neighbor>, exact: seq<Neighbor>, xs: seq<nat>, ys: seq<nat>)
    requires SameContents(sp, cosine, nodes, items, q) && Scores(fast) == Scores(exact)
    requires Nearest(sp, nodes, sp.normalized(q), pool, k, fast, xs) && NearestItems(cosine, items, q, k, exact, ys)
    requires forall i: nat :: i in pool <==> i < |nodes|
    ensures fast != [] ==> SameButTies(sp, nodes, sp.normalized(q), xs, ys, fast[|fast| - 1].score)
  {
    hide Closest;
    assert |Scores(fast)| == |fast| && |Scores(exact)| == |exact|;
    if fast != [] {
      var qn, n := sp.normalized(q), |fast| - 1;
      var last := fast[n].score;
      assert Scores(fast)[n] == Scores(exact)[n];
      var f, g := Scorer(sp, nodes, qn), ItemScorer(cosine, items, q);
      assert f(xs[n]) == last == g(ys[n]);
      forall x: nat | x < |nodes| && sp.dot(nodes[x].vec, qn) > last ensures x in xs <==> x in ys {
        assert cosine(q, items[x].raw) == Similarity(sp, nodes, x, qn);
        OverTheLast(f, pool, Min(k, |pool|), xs, x);
        OverTheLast(g, UpTo(|items|), Min(k, |items|), ys, x);
      }
    }
  }

  lemma OverTheLast(score: nat -> int, pool: set<nat>, n: nat, xs: seq<nat>, x: nat)
    requires Closest(score, pool, n, xs) && xs != [] && x in pool && score(x) > score(xs[|xs| - 1])
    ensures x in xs
  {
  }

  lemma {:induction false} EverythingReached<V>(nodes: seq<Node<V>>, from: nat)
    requires AllReached(nodes, from)
    ensures |ReachSet(nodes, 0, from)| == |nodes| && forall i: nat :: i in ReachSet(nodes, 0, from) <==> i < |nodes|
  {
    hide Reachable;
    CountBelow(|nodes|, ReachSet(nodes, 0, from));
  }

  lemma {:induction false} CountBelow(n: nat, s: set<nat>)
    requires forall i: nat :: i in s <==> i < n
    ensures |s| == n
  {
    if n == 0 {
      assert s == {};
    } else {
      CountBelow(n - 1, s - {n - 1});
    }
  }
}
