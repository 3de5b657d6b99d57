/** Diversity-aware neighbour selection (Algorithm 4 of Malkov and Yashunin 2016, keeping
    pruned connections). */
module HnswSelect {
  import opened Sorting
  import opened HnswGraph

  ghost predicate DistinctNodes(s: seq<Scored>) {
    forall i, j :: 0 <= i < j < |s| ==> s[i].1 != s[j].1
  }

  predicate InRange<V>(nodes: seq<Node<V>>, s: seq<Scored>) {
    forall k :: 0 <= k < |s| ==> s[k].1 < |nodes|
  }

  /** `c` is closer to the base than to every node kept before it. */
  predicate Diverse<V>(sp: Space<V>, nodes: seq<Node<V>>, kept: seq<Scored>, c: Scored)
    requires c.1 < |nodes| && InRange(nodes, kept)
  {
    forall k :: 0 <= k < |kept| ==> c.0 > sp.dot(nodes[kept[k].1].vec, nodes[c.1].vec)
  }

  /** `p` is at least as close to some kept node as to the base. */
  ghost predicate TooClose<V>(sp: Space<V>, nodes: seq<Node<V>>, kept: seq<Scored>, p: Scored) {
    p.1 < |nodes| && InRange(nodes, kept) && !Diverse(sp, nodes, kept, p)
  }

  /** Each one kept is diverse from those kept before it. */
  ghost predicate DiverseChain<V>(sp: Space<V>, nodes: seq<Node<V>>, kept: seq<Scored>) {
    InRange(nodes, kept) && forall k :: 0 <= k < |kept| ==> Diverse(sp, nodes, kept[..k], kept[k])
  }

  ghost predicate AllTooClose<V>(sp: Space<V>, nodes: seq<Node<V>>, kept: seq<Scored>, skipped: seq<Scored>) {
    forall p :: p in skipped ==> TooClose(sp, nodes, kept, p)
  }

  /** The candidates seen so far, each in exactly one of two lists. */
  ghost predicate SplitOf(prefix: seq<Scored>, keep: seq<Scored>, skipped: seq<Scored>) {
    && |keep| + |skipped| == |prefix| && DistinctNodes(keep + skipped)
    && (forall p :: p in keep || p in skipped <==> p in prefix)
    && (keep != [] ==> keep[0] == prefix[0])
  }

  ghost predicate Selecting<V>(sp: Space<V>, nodes: seq<Node<V>>, prefix: seq<Scored>, keep: seq<Scored>,
                               skipped: seq<Scored>) {
    && SplitOf(prefix, keep, skipped) && DiverseChain(sp, nodes, keep) && AllTooClose(sp, nodes, keep, skipped)
    && (prefix != [] ==> keep != [])
  }

  lemma KeepOne<V>(sp: Space<V>, nodes: seq<Node<V>>, prefix: seq<Scored>, keep: seq<Scored>, skipped: seq<Scored>,
                   c: Scored)
    requires Selecting(sp, nodes, prefix, keep, skipped) && c.1 < |nodes| && InRange(nodes, keep)
    requires Diverse(sp, nodes, keep, c)
    requires forall p :: p in prefix ==> p.1 != c.1
    ensures Selecting(sp, nodes, prefix + [c], keep + [c], skipped)
  {
    hide SplitOf, DiverseChain, TooClose, InRange;
    SplitKeep(prefix, keep, skipped, c);
    ChainGrows(sp, nodes, keep, c);
    forall p | p in skipped ensures TooClose(sp, nodes, keep + [c], p) {
      StillTooClose(sp, nodes, keep, c, p);
    }
  }

  lemma ChainGrows<V>(sp: Space<V>, nodes: seq<Node<V>>, keep: seq<Scored>, c: Scored)
    requires DiverseChain(sp, nodes, keep) && c.1 < |nodes| && Diverse(sp, nodes, keep, c)
    ensures DiverseChain(sp, nodes, keep + [c])
  {
    hide Diverse;
    var keep' := keep + [c];
    forall k | 0 <= k < |keep'| ensures Diverse(sp, nodes, keep'[..k], keep'[k]) {
      assert keep'[..k] == keep[..k];
    }
  }

  lemma SplitKeep(prefix: seq<Scored>, keep: seq<Scored>, skipped: seq<Scored>, c: Scored)
    requires SplitOf(prefix, keep, skipped) && (prefix != [] ==> keep != []) && forall p :: p in prefix ==> p.1 != c.1
    ensures SplitOf(prefix + [c], keep + [c], skipped)
  {
    hide DistinctNodes;
    InsertDistinct(keep, skipped, c);
    MembersAfter(prefix, keep, skipped, c);
  }

  lemma SplitSkip(prefix: seq<Scored>, keep: seq<Scored>, skipped: seq<Scored>, c: Scored)
    requires SplitOf(prefix, keep, skipped) && keep != [] && forall p :: p in prefix ==> p.1 != c.1
    ensures SplitOf(prefix + [c], keep, skipped + [c])
  {
    MembersAfter(prefix, keep, skipped, c);
    var s := keep + skipped;
    assert keep + (skipped + [c]) == s + [c];
    forall i | 0 <= i < |s| ensures s[i].1 != c.1 { assert s[i] in keep || s[i] in skipped; }
  }

  lemma MembersAfter(prefix: seq<Scored>, keep: seq<Scored>, skipped: seq<Scored>, c: Scored)
    requires forall p :: p in keep || p in skipped <==> p in prefix
    ensures forall p :: p in keep + [c] || p in skipped <==> p in prefix + [c]
    ensures forall p :: p in keep || p in skipped + [c] <==> p in prefix + [c]
  {
  }

  lemma StillTooClose<V>(sp: Space<V>, nodes: seq<Node<V>>, keep: seq<Scored>, c: Scored, p: Scored)
    requires c.1 < |nodes| && TooClose(sp, nodes, keep, p)
    ensures TooClose(sp, nodes, keep + [c], p)
  {
    var k :| 0 <= k < |keep| && p.0 <= sp.dot(nodes[keep[k].1].vec, nodes[p.1].vec);
    assert (keep + [c])[k] == keep[k];
  }

  lemma InsertDistinct(keep: seq<Scored>, skipped: seq<Scored>, c: Scored)
    requires DistinctNodes(keep + skipped) && forall p :: p in keep || p in skipped ==> p.1 != c.1
    ensures DistinctNodes(keep + [c] + skipped)
  {
    var s, t := keep + skipped, keep + [c] + skipped;
    assert forall i :: 0 <= i < |keep| ==> t[i] == s[i];
    assert forall i :: |keep| < i < |t| ==> t[i] == s[i - 1];
    assert forall i :: 0 <= i < |t| && i != |keep| ==> t[i].1 != c.1;
  }

  lemma FirstIsDiverse<V>(sp: Space<V>, nodes: seq<Node<V>>, keep: seq<Scored>, c: Scored)
    requires TooClose(sp, nodes, keep, c)
    ensures keep != []
  {
  }

  lemma SkipOne<V>(sp: Space<V>, nodes: seq<Node<V>>, prefix: seq<Scored>, keep: seq<Scored>, skipped: seq<Scored>,
                   c: Scored)
    requires Selecting(sp, nodes, prefix, keep, skipped) && TooClose(sp, nodes, keep, c)
    requires forall p :: p in prefix ==> p.1 != c.1
    ensures Selecting(sp, nodes, prefix + [c], keep, skipped + [c])
  {
    hide SplitOf, DiverseChain, TooClose;
    FirstIsDiverse(sp, nodes, keep, c);
    SplitSkip(prefix, keep, skipped, c);
  }

  /** As many as fit, all from the candidates, the kept ones first. */
  ghost predicate Taken(candidates: seq<Scored>, cap: nat, kept: seq<Scored>, out: seq<nat>) {
    && Distinct(out) && |out| == (if |candidates| <= cap then |candidates| else cap) && |kept| <= |out|
    && (forall x :: x in out ==> exists p :: p in candidates && p.1 == x)
    && (forall k :: 0 <= k < |kept| ==> kept[k] in candidates && out[k] == kept[k].1)
    && (cap > 0 && candidates != [] ==> kept != [] && kept[0] == candidates[0])
  }

  /** The capacity left is filled with candidates that were too close to a kept one. */
  ghost predicate Filled<V>(sp: Space<V>, nodes: seq<Node<V>>, candidates: seq<Scored>, kept: seq<Scored>,
                            fill: seq<nat>) {
    forall x :: x in fill ==> exists p :: p in candidates && p.1 == x && TooClose(sp, nodes, kept, p)
  }

  // ---- in turn ----

  /** The candidates that are, or are not, among `kept`, in their order. */
  ghost function Only(candidates: seq<Scored>, kept: seq<Scored>, want: bool): seq<Scored> {
    if candidates == [] then []
    else
      var c := candidates[|candidates| - 1];
      Only(candidates[..|candidates| - 1], kept, want) + if (c in kept) == want then [c] else []
  }

  /** Candidate `i` was passed over for one kept earlier, which it is at least as similar to as to
      the base. */
  ghost predicate PassedFor<V>(sp: Space<V>, nodes: seq<Node<V>>, candidates: seq<Scored>, kept: seq<Scored>,
                               i: int, j: int) {
    && 0 <= j < i < |candidates| && candidates[j] in kept && candidates[i].1 < |nodes| && candidates[j].1 < |nodes|
    && candidates[i].0 <= sp.dot(nodes[candidates[j].1].vec, nodes[candidates[i].1].vec)
  }

  ghost predicate Passed<V>(sp: Space<V>, nodes: seq<Node<V>>, candidates: seq<Scored>, kept: seq<Scored>, i: int) {
    exists j :: PassedFor(sp, nodes, candidates, kept, i, j)
  }

  /** Candidates are taken in their order: each is kept, or passed over for one before it, or comes
      after all that were kept when there is no more room. The capacity left is filled with those
      passed over, from the first on. */
  ghost predicate InTurn<V>(sp: Space<V>, nodes: seq<Node<V>>, candidates: seq<Scored>, cap: nat, kept: seq<Scored>,
                            out: seq<nat>) {
    && kept == Only(candidates, kept, true) && |kept| <= |out|
    && out[|kept|..] <= NodesIn(Only(candidates, kept, false))
    && forall i :: 0 <= i < |candidates| && candidates[i] !in kept ==>
         || Passed(sp, nodes, candidates, kept, i)
         || (|kept| == cap && forall j :: i < j < |candidates| ==> candidates[j] !in kept)
  }

  /** The same of the candidates seen so far. */
  ghost predicate Turns<V>(sp: Space<V>, nodes: seq<Node<V>>, prefix: seq<Scored>, keep: seq<Scored>,
                           skipped: seq<Scored>) {
    && keep == Only(prefix, keep, true) && skipped == Only(prefix, keep, false)
    && forall i :: 0 <= i < |prefix| && prefix[i] !in keep ==> Passed(sp, nodes, prefix, keep, i)
  }

  lemma {:induction false} OnlySame(s: seq<Scored>, a: seq<Scored>, b: seq<Scored>, want: bool)
    requires forall x :: x in s ==> (x in a <==> x in b)
    ensures Only(s, a, want) == Only(s, b, want)
  {
    if s != [] { OnlySame(s[..|s| - 1], a, b, want); }
  }

  lemma {:induction false} OnlyFrom(s: seq<Scored>, a: seq<Scored>, want: bool)
    ensures forall x :: x in Only(s, a, want) ==> x in s
  {
    if s != [] { OnlyFrom(s[..|s| - 1], a, want); }
  }

  lemma OnlyOneMore(s: seq<Scored>, a: seq<Scored>, c: Scored, want: bool)
    ensures Only(s + [c], a, want) == Only(s, a, want) + if (c in a) == want then [c] else []
  {
    assert (s + [c])[..|s|] == s;
  }

  lemma PassedStill<V>(sp: Space<V>, nodes: seq<Node<V>>, a: seq<Scored>, b: seq<Scored>, keep: seq<Scored>,
                       keep': seq<Scored>, i: int)
    requires Passed(sp, nodes, a, keep, i) && a <= b && forall x :: x in keep ==> x in keep'
    ensures Passed(sp, nodes, b, keep', i)
  {
    var j :| PassedFor(sp, nodes, a, keep, i, j);
    assert PassedFor(sp, nodes, b, keep', i, j);
  }

  lemma TurnKeeps<V>(sp: Space<V>, nodes: seq<Node<V>>, prefix: seq<Scored>, keep: seq<Scored>, skipped: seq<Scored>,
                     c: Scored)
    requires Turns(sp, nodes, prefix, keep, skipped) && c !in prefix
    ensures Turns(sp, nodes, prefix + [c], keep + [c], skipped)
  {
    hide Passed;
    var all, keep' := prefix + [c], keep + [c];
    OnlySame(prefix, keep, keep', true);
    OnlySame(prefix, keep, keep', false);
    OnlyOneMore(prefix, keep', c, true);
    OnlyOneMore(prefix, keep', c, false);
    forall i | 0 <= i < |all| && all[i] !in keep' ensures Passed(sp, nodes, all, keep', i) {
      assert c in keep';
      assert i < |prefix| && all[i] == prefix[i];
      PassedStill(sp, nodes, prefix, all, keep, keep', i);
    }
  }

  lemma TurnPasses<V>(sp: Space<V>, nodes: seq<Node<V>>, prefix: seq<Scored>, keep: seq<Scored>, skipped: seq<Scored>,
                      c: Scored)
    requires Turns(sp, nodes, prefix, keep, skipped) && c !in prefix && TooClose(sp, nodes, keep, c)
    ensures Turns(sp, nodes, prefix + [c], keep, skipped + [c])
  {
    hide Passed;
    var all := prefix + [c];
    OnlyFrom(prefix, keep, true);
    OnlyOneMore(prefix, keep, c, true);
    OnlyOneMore(prefix, keep, c, false);
    forall i | 0 <= i < |all| && all[i] !in keep ensures Passed(sp, nodes, all, keep, i) {
      if i < |prefix| {
        PassedStill(sp, nodes, prefix, all, keep, keep, i);
      } else {
        PassedNow(sp, nodes, prefix, keep, c);
      }
    }
  }

  lemma PassedNow<V>(sp: Space<V>, nodes: seq<Node<V>>, prefix: seq<Scored>, keep: seq<Scored>, c: Scored)
    requires TooClose(sp, nodes, keep, c) && forall x :: x in keep ==> x in prefix
    ensures Passed(sp, nodes, prefix + [c], keep, |prefix|)
  {
    var k :| 0 <= k < |keep| && c.0 <= sp.dot(nodes[keep[k].1].vec, nodes[c.1].vec);
    assert keep[k] in keep;
    var j :| 0 <= j < |prefix| && prefix[j] == keep[k];
    assert PassedFor(sp, nodes, prefix + [c], keep, |prefix|, j);
  }

  lemma TurnsBegin<V>(sp: Space<V>, nodes: seq<Node<V>>)
    ensures Turns(sp, nodes, [], [], [])
  {
  }

  lemma TurnsEnd<V>(sp: Space<V>, nodes: seq<Node<V>>, candidates: seq<Scored>, cap: nat, i: nat, keep: seq<Scored>,
                    skipped: seq<Scored>, fill: seq<Scored>, out: seq<nat>)
    requires DistinctNodes(candidates) && i <= |candidates| && Turns(sp, nodes, candidates[..i], keep, skipped)
    requires i == |candidates| || |keep| == cap
    requires fill <= skipped && (i < |candidates| ==> fill == []) && out == NodesIn(keep) + NodesIn(fill)
    ensures InTurn(sp, nodes, candidates, cap, keep, out)
  {
    hide Passed;
    var prefix := candidates[..i];
    OnlyFrom(prefix, keep, true);
    assert forall k :: 0 <= k < i ==> prefix[k] == candidates[k];
    assert forall j :: i <= j < |candidates| ==> candidates[j] !in keep;
    OnlyRest(candidates, keep, i);
    assert i == |candidates| ==> prefix == candidates;
    assert out[|keep|..] == NodesIn(fill);
    forall k | 0 <= k < |candidates| && candidates[k] !in keep
      ensures Passed(sp, nodes, candidates, keep, k)
              || (|keep| == cap && forall j :: k < j < |candidates| ==> candidates[j] !in keep)
    {
      if k < i {
        assert prefix[k] == candidates[k];
        PassedStill(sp, nodes, prefix, candidates, keep, keep, k);
      }
    }
  }

  lemma {:induction false} OnlyRest(s: seq<Scored>, keep: seq<Scored>, i: nat)
    requires i <= |s| && forall j :: i <= j < |s| ==> s[j] !in keep
    ensures Only(s, keep, true) == Only(s[..i], keep, true)
  {
    if i < |s| {
      OnlyRest(s[..|s| - 1], keep, i);
      assert s[..|s| - 1][..i] == s[..i];
    } else {
      assert s[..i] == s;
    }
  }

  /** What `select_diverse` returns: as many as fit, the kept ones first, the nearest candidate
      among them and each diverse from those before it; none that is diverse from all of them is
      left out while there is room, and the capacity left is filled with candidates that were
      too close to a kept one. */
  ghost predicate Selection<V>(sp: Space<V>, nodes: seq<Node<V>>, candidates: seq<Scored>, cap: nat,
                               kept: seq<Scored>, out: seq<nat>) {
    && Taken(candidates, cap, kept, out) && DiverseChain(sp, nodes, kept)
    && (Sorted(ScoredGe, candidates) ==> Sorted(ScoredGe, kept))
    && (|kept| < cap ==> forall p :: p in candidates ==> p in kept || TooClose(sp, nodes, kept, p))
    && Filled(sp, nodes, candidates, kept, out[|kept|..])
    && InTurn(sp, nodes, candidates, cap, kept, out)
  }

  /** A selection in similarities alone: every kept node is more similar to the base than to any
      kept before it, and a candidate left out while there was room is at least as similar to some
      kept node as to the base. */
  lemma SelectionMeans<V>(sp: Space<V>, nodes: seq<Node<V>>, candidates: seq<Scored>, cap: nat, kept: seq<Scored>,
                          out: seq<nat>)
    requires Selection(sp, nodes, candidates, cap, kept, out)
    ensures forall k :: 0 <= k < |kept| ==> kept[k].1 < |nodes|
    ensures forall j, k :: 0 <= j < k < |kept| ==> kept[k].0 > sp.dot(nodes[kept[j].1].vec, nodes[kept[k].1].vec)
    ensures |kept| < cap ==> forall p :: p in candidates && p !in kept ==>
      p.1 < |nodes| && exists k :: 0 <= k < |kept| && p.0 <= sp.dot(nodes[kept[k].1].vec, nodes[p.1].vec)
  {
    hide Taken, Filled, Sorted, InTurn;
    forall j, k | 0 <= j < k < |kept| ensures kept[k].0 > sp.dot(nodes[kept[j].1].vec, nodes[kept[k].1].vec) {
      assert Diverse(sp, nodes, kept[..k], kept[k]);
      assert kept[..k][j] == kept[j];
    }
  }

  function NodesIn(s: seq<Scored>): seq<nat> {
    seq(|s|, k requires 0 <= k < |s| => s[k].1)
  }

  /** Some kept nodes make `out` a diverse selection. */
  ghost predicate Selects<V>(sp: Space<V>, nodes: seq<Node<V>>, candidates: seq<Scored>, cap: nat, out: seq<nat>) {
    exists kept :: Selection(sp, nodes, candidates, cap, kept, out)
  }

  method SelectDiverse<V>(sp: Space<V>, nodes: seq<Node<V>>, candidates: seq<Scored>, cap: nat)
    returns (out: seq<nat>, ghost kept: seq<Scored>)
    requires DistinctNodes(candidates) && InRange(nodes, candidates)
    ensures Selection(sp, nodes, candidates, cap, kept, out)
    ensures Selects(sp, nodes, candidates, cap, out)
  {
    hide Selecting, Selection, Diverse, DiverseChain, Turns;
    var keep: seq<Scored>, skipped: seq<Scored> := [], [];
    var i := 0;
    SelectNone(sp, nodes);
    TurnsBegin(sp, nodes);
    while i < |candidates| && |keep| < cap
      invariant i <= |candidates| && |keep| <= cap && (|keep| == cap || i == |keep| + |skipped|)
      invariant Selecting(sp, nodes, candidates[..i], keep, skipped)
      invariant Turns(sp, nodes, candidates[..i], keep, skipped)
      invariant Sorted(ScoredGe, candidates) ==> Sorted(ScoredGe, keep)
    {
      var c := candidates[i];
      assert candidates[..i + 1] == candidates[..i] + [c];
      KeptInRange(sp, nodes, candidates[..i], keep, skipped);
      if Diverse(sp, nodes, keep, c) {
        KeepOne(sp, nodes, candidates[..i], keep, skipped, c);
        TurnKeeps(sp, nodes, candidates[..i], keep, skipped, c);
        KeepSorted(sp, nodes, candidates, i, keep, skipped);
        keep := keep + [c];
      } else {
        SkipOne(sp, nodes, candidates[..i], keep, skipped, c);
        TurnPasses(sp, nodes, candidates[..i], keep, skipped, c);
        skipped := skipped + [c];
      }
      i := i + 1;
    }
    KeptInRange(sp, nodes, candidates[..i], keep, skipped);
    var room := cap - |keep|;
    var fill := skipped[..if |skipped| <= room then |skipped| else room];
    out := NodesIn(keep) + NodesIn(fill);
    kept := keep;
    TurnsEnd(sp, nodes, candidates, cap, i, keep, skipped, fill, out);
    Selected(sp, nodes, candidates, cap, i, keep, skipped, fill, out);
  }

  lemma KeepSorted<V>(sp: Space<V>, nodes: seq<Node<V>>, candidates: seq<Scored>, i: nat, keep: seq<Scored>,
                      skipped: seq<Scored>)
    requires i < |candidates| && Selecting(sp, nodes, candidates[..i], keep, skipped)
    requires Sorted(ScoredGe, candidates) ==> Sorted(ScoredGe, keep)
    ensures Sorted(ScoredGe, candidates) ==> Sorted(ScoredGe, keep + [candidates[i]])
  {
    hide Diverse;
    forall k | 0 <= k < |keep| ensures Sorted(ScoredGe, candidates) ==> ScoredGe(keep[k], candidates[i]) {
      assert keep[k] in candidates[..i];
    }
  }

  lemma SelectNone<V>(sp: Space<V>, nodes: seq<Node<V>>)
    ensures Selecting(sp, nodes, [], [], [])
  {
  }

  lemma KeptInRange<V>(sp: Space<V>, nodes: seq<Node<V>>, prefix: seq<Scored>, keep: seq<Scored>, skipped: seq<Scored>)
    requires Selecting(sp, nodes, prefix, keep, skipped)
    ensures InRange(nodes, keep) && |keep| + |skipped| == |prefix|
  {
  }

  lemma Selected<V>(sp: Space<V>, nodes: seq<Node<V>>, candidates: seq<Scored>, cap: nat, i: nat,
                    keep: seq<Scored>, skipped: seq<Scored>, fill: seq<Scored>, out: seq<nat>)
    requires i <= |candidates| && Selecting(sp, nodes, candidates[..i], keep, skipped) && |keep| <= cap
    requires i == |candidates| || |keep| == cap
    requires fill == skipped[..if |skipped| <= cap - |keep| then |skipped| else cap - |keep|]
    requires out == NodesIn(keep) + NodesIn(fill)
    requires Sorted(ScoredGe, candidates) ==> Sorted(ScoredGe, keep)
    requires InTurn(sp, nodes, candidates, cap, keep, out)
    ensures Selection(sp, nodes, candidates, cap, keep, out)
  {
    hide DiverseChain, Sorted, TooClose, SplitOf, Taken, InTurn;
    SelectedTaken(candidates, cap, i, keep, skipped, fill, out);
    if |keep| < cap { assert candidates[..i] == candidates; }
    SplitMembers(candidates[..i], keep, skipped);
    assert out[|keep|..] == NodesIn(fill);
    forall x | x in NodesIn(fill) ensures exists p :: p in candidates && p.1 == x && TooClose(sp, nodes, keep, p) {
      var k :| 0 <= k < |fill| && fill[k].1 == x;
      assert fill[k] in skipped && fill[k] in candidates[..i];
    }
  }

  lemma SplitMembers(prefix: seq<Scored>, keep: seq<Scored>, skipped: seq<Scored>)
    requires SplitOf(prefix, keep, skipped)
    ensures forall p :: p in keep || p in skipped <==> p in prefix
  {
  }

  lemma SelectedTaken(candidates: seq<Scored>, cap: nat, i: nat, keep: seq<Scored>, skipped: seq<Scored>,
                      fill: seq<Scored>, out: seq<nat>)
    requires i <= |candidates| && SplitOf(candidates[..i], keep, skipped) && |keep| <= cap && (i > 0 ==> keep != [])
    requires i == |candidates| || |keep| == cap
    requires fill == skipped[..if |skipped| <= cap - |keep| then |skipped| else cap - |keep|]
    requires out == NodesIn(keep) + NodesIn(fill)
    ensures Taken(candidates, cap, keep, out)
  {
    var all := keep + skipped;
    forall k | 0 <= k < |out| ensures out[k] == all[k].1 && all[k] in candidates {
      assert all[k] in keep || all[k] in skipped;
      assert all[k] in candidates[..i];
    }
    forall k | 0 <= k < |keep| ensures keep[k] in candidates && out[k] == keep[k].1 {
      assert all[k] == keep[k];
    }
  }
}
