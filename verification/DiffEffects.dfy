/** What one merge, and one confirmation, can do to the store. */
module DiffEffects {
  import opened Sorting
  import opened Core
  import opened Store
  import opened Diff

  /** Rows sit under their own identity. */
  ghost predicate Keyed(st: State) {
    && (forall id :: id in st.nodes ==> st.nodes[id].Id() == id)
    && (forall k :: k in st.edges ==> st.edges[k].Key() == k)
  }

  // ---- the batch ----

  /** Copy `i` of the diff is written for `id`. */
  ghost predicate WritesNode(st: State, ns: seq<MemoryNode>, caller: Option<Bytes>, now: nat, i: int, id: ContentHash) {
    0 <= i < |ns| && ns[i].Id() == id && PlanNode(st, ns[i], caller, now).WriteNode?
  }

  lemma WriteKeepsId(st: State, n: MemoryNode, caller: Option<Bytes>, now: nat)
    requires Keyed(st) && PlanNode(st, n, caller, now).WriteNode?
    ensures PlanNode(st, n, caller, now).node.Id() == n.Id()
  {
  }

  lemma OneMoreWrite(st: State, ns: seq<MemoryNode>, caller: Option<Bytes>, now: nat)
    requires Keyed(st) && ns != []
    ensures var before := PutNodes(st.nodes, NodeWrites(st, ns[..|ns| - 1], caller, now)); var x := ns[|ns| - 1];
      PutNodes(st.nodes, NodeWrites(st, ns, caller, now)) ==
      match PlanNode(st, x, caller, now) case WriteNode(y, _) => before[x.Id() := y] case _ => before
  {
    hide PlanNode, Keyed;
    var w, x := NodeWrites(st, ns[..|ns| - 1], caller, now), ns[|ns| - 1];
    match PlanNode(st, x, caller, now) {
      case WriteNode(y, _) =>
        assert (w + [y])[..|w|] == w;
        WriteKeepsId(st, x, caller, now);
      case _ =>
        assert w + [] == w;
    }
  }

  /** What a row holds after the writes of `ns`: the planned write of some copy, or what it held
      before. */
  ghost predicate Row(st: State, ns: seq<MemoryNode>, caller: Option<Bytes>, now: nat, id: ContentHash,
                      m: map<ContentHash, MemoryNode>)
  {
    || (id in m && exists i :: WritesNode(st, ns, caller, now, i, id)
                               && m[id] == PlanNode(st, ns[i], caller, now).node)
    || ((forall i :: !WritesNode(st, ns, caller, now, i, id))
        && (id in m <==> id in st.nodes) && (id in m ==> m[id] == st.nodes[id]))
  }

  lemma {:induction false} NodesAfter(st: State, ns: seq<MemoryNode>, caller: Option<Bytes>, now: nat, id: ContentHash)
    requires Keyed(st)
    ensures Row(st, ns, caller, now, id, PutNodes(st.nodes, NodeWrites(st, ns, caller, now)))
  {
    hide PlanNode, Keyed, NodeWrites, PutNodes, Row, WritesNode;
    var m := PutNodes(st.nodes, NodeWrites(st, ns, caller, now));
    if ns == [] {
      NoWrites(st, ns, caller, now, id);
    } else {
      var init, x := ns[..|ns| - 1], ns[|ns| - 1];
      NodesAfter(st, init, caller, now, id);
      OneMoreWrite(st, ns, caller, now);
      if PlanNode(st, x, caller, now).WriteNode? && x.Id() == id {
        RowWritten(st, ns, caller, now, id, m);
      } else {
        RowKept(st, ns, caller, now, id, PutNodes(st.nodes, NodeWrites(st, init, caller, now)), m);
      }
    }
  }

  lemma NoWrites(st: State, ns: seq<MemoryNode>, caller: Option<Bytes>, now: nat, id: ContentHash)
    requires ns == []
    ensures Row(st, ns, caller, now, id, PutNodes(st.nodes, NodeWrites(st, ns, caller, now)))
  {
    hide PlanNode;
  }

  lemma RowWritten(st: State, ns: seq<MemoryNode>, caller: Option<Bytes>, now: nat, id: ContentHash,
                   m: map<ContentHash, MemoryNode>)
    requires ns != [] && ns[|ns| - 1].Id() == id && PlanNode(st, ns[|ns| - 1], caller, now).WriteNode?
    requires id in m && m[id] == PlanNode(st, ns[|ns| - 1], caller, now).node
    ensures Row(st, ns, caller, now, id, m)
  {
    hide PlanNode;
    assert WritesNode(st, ns, caller, now, |ns| - 1, id);
  }

  lemma RowKept(st: State, ns: seq<MemoryNode>, caller: Option<Bytes>, now: nat, id: ContentHash,
                m0: map<ContentHash, MemoryNode>, m: map<ContentHash, MemoryNode>)
    requires ns != [] && !(ns[|ns| - 1].Id() == id && PlanNode(st, ns[|ns| - 1], caller, now).WriteNode?)
    requires Row(st, ns[..|ns| - 1], caller, now, id, m0) && (id in m <==> id in m0) && (id in m ==> m[id] == m0[id])
    ensures Row(st, ns, caller, now, id, m)
  {
    hide PlanNode;
    var init := ns[..|ns| - 1];
    forall i ensures WritesNode(st, ns, caller, now, i, id) <==> WritesNode(st, init, caller, now, i, id) {}
    assert forall i :: 0 <= i < |init| ==> init[i] == ns[i];
  }

  lemma {:induction false} EdgesAfter(stored: map<EdgeKey, Edge>, es: seq<Edge>, k: EdgeKey)
    ensures var m := PutEdges(stored, es);
      || (k in m && m[k] in es && m[k].Key() == k && !Demotes(stored, m[k]))
      || ((forall i :: 0 <= i < |es| && es[i].Key() == k ==> Demotes(stored, es[i]))
          && (k in m <==> k in stored) && (k in m ==> m[k] == stored[k]))
  {
    if es != [] {
      EdgesAfter(stored, es[..|es| - 1], k);
      assert es == es[..|es| - 1] + [es[|es| - 1]];
    }
  }

  lemma {:induction false} PlannedSpec(st: State, ns: seq<MemoryNode>, es: seq<Edge>, caller: Option<Bytes>,
                                       now: nat, plan: EdgePlan)
    ensures forall e ::
      e in Planned(st, ns, es, caller, now, plan) <==> e in es && PlanEdge(st, ns, e, caller, now) == plan
  {
    if es != [] {
      PlannedSpec(st, ns, es[..|es| - 1], caller, now, plan);
      assert es == es[..|es| - 1] + [es[|es| - 1]];
    }
  }

  lemma {:induction false} InsertersOnly(st: State, ns: seq<MemoryNode>, plain: seq<Edge>, caller: Option<Bytes>)
    ensures var st' := RecordInserters(st, ns, plain, caller); st'.nodes == st.nodes && st'.edges == st.edges
  {
    if plain != [] { InsertersOnly(st, ns, plain[..|plain| - 1], caller); }
  }

  /** Nobody in the diff was refused. */
  lemma {:induction false} NoRefusal(st: State, ns: seq<MemoryNode>, es: seq<Edge>, caller: Option<Bytes>, now: nat)
    requires EdgeRefusal(st, ns, es, caller, now).None?
    ensures forall e :: e in es ==> !PlanEdge(st, ns, e, caller, now).RefuseEdge?
  {
    if es != [] {
      NoRefusal(st, ns, es[..|es| - 1], caller, now);
      assert es == es[..|es| - 1] + [es[|es| - 1]];
    }
  }

  /** What the plan makes of a diff's one edge. */
  lemma OneEdge(scheme: SignatureScheme, st: State, ns: seq<MemoryNode>, e: Edge, caller: Option<Bytes>, now: nat)
    ensures VerifyEdges(scheme, [e]) == VerifyEdge(scheme, e)
    ensures EdgeRefusal(st, ns, [e], caller, now) ==
      match PlanEdge(st, ns, e, caller, now) case RefuseEdge(err) => Some(err) case _ => None
    ensures Planned(st, ns, [e], caller, now, PlainEdge) ==
      if PlanEdge(st, ns, e, caller, now) == PlainEdge then [e] else []
    ensures Planned(st, ns, [e], caller, now, SupersedeEdge) ==
      if PlanEdge(st, ns, e, caller, now) == SupersedeEdge then [e] else []
  {
    hide PlanEdge, VerifyEdge;
    assert [e][..0] == [];
    assert VerifyEdges(scheme, [e][..0]) == None && EdgeRefusal(st, ns, [e][..0], caller, now) == None;
    assert Planned(st, ns, [e][..0], caller, now, PlainEdge) == [];
    assert Planned(st, ns, [e][..0], caller, now, SupersedeEdge) == [];
  }

  /** What the plan makes of a diff of one node. */
  lemma OneNode(scheme: SignatureScheme, st: State, n: MemoryNode, caller: Option<Bytes>, now: nat)
    requires Keyed(st) && VerifyNode(scheme, n).None?
    ensures var (st', r) := ApplyDiff(scheme, st, MemoryDiff([n], []), caller, now);
      match PlanNode(st, n, caller, now)
      case RefuseNode => st' == st && r == Err(NotAuthor)
      case SkipNode => st' == st && r.Ok?
      case WriteNode(w, _) => st' == st.(nodes := st.nodes[n.Id() := w]) && r.Ok?
  {
    hide VerifyNode, PlanNode;
    assert [n][..0] == [];
    assert VerifyNodes(scheme, [n][..0]).None? && VerifyNodes(scheme, [n]).None?;
    assert NodeWrites(st, [n][..0], caller, now) == [];
    match PlanNode(st, n, caller, now) {
      case RefuseNode => assert PlanNode(st, [n][0], caller, now).RefuseNode?;
      case SkipNode => assert NodeWrites(st, [n], caller, now) == [];
      case WriteNode(w, _) =>
        WriteKeepsId(st, n, caller, now);
        assert NodeWrites(st, [n], caller, now) == [w] && [w][..0] == [];
        assert PutNodes(st.nodes, [w]) == st.nodes[n.Id() := w];
    }
  }

  /** A diff of one new plain edge that contests no known node adds that edge and nothing else. */
  lemma OnePlainEdge(scheme: SignatureScheme, st: State, e: Edge, caller: Option<Bytes>, now: nat)
    requires VerifyEdge(scheme, e).None? && PlanEdge(st, [], e, caller, now) == PlainEdge
    requires e.Key() !in st.edges && (NeedsSecondParty(e.kind) ==> e.to !in st.nodes)
    ensures var (st', r) := ApplyDiff(scheme, st, MemoryDiff([], [e]), caller, now);
      r.Ok? && st' == st.(edges := st.edges[e.Key() := e])
  {
    hide PlanEdge, VerifyEdge, Planned, EdgeRefusal, VerifyEdges, ApplySupersession;
    var d, after := MemoryDiff([], [e]), st.(edges := st.edges[e.Key() := e]);
    OneEdge(scheme, st, [], e, caller, now);
    assert PutEdges(st.edges, [e][..0]) == st.edges && PutEdges(st.edges, [e]) == after.edges;
    assert RecordInserters(after, [], [e][..0], caller) == after && FirstWithId([], e.to).None?;
    assert RecordInserters(after, [], [e], caller) == after;
    assert Committed(st, d, caller, now) == after;
  }

  // ---- supersessions ----

  ghost predicate IsRetirement(before: MemoryNode, after: MemoryNode) {
    before.status == Active && after.status == Status.Superseded && after.validTo.Some?
    && after == before.(status := after.status, validTo := after.validTo)
  }

  ghost predicate Targeted(es: seq<Edge>, id: ContentHash) {
    exists e :: e in es && e.to == id
  }

  /** Nodes differ only by the retirement of targets of `es`. */
  ghost predicate OnlyRetires(m: map<ContentHash, MemoryNode>, m': map<ContentHash, MemoryNode>, es: seq<Edge>) {
    && m'.Keys == m.Keys
    && forall id :: id in m && m'[id] != m[id] ==> IsRetirement(m[id], m'[id]) && Targeted(es, id)
  }

  /** Edges differ only by storing members of `es`. */
  ghost predicate OnlyStores(m: map<EdgeKey, Edge>, m': map<EdgeKey, Edge>, es: seq<Edge>) {
    && m.Keys <= m'.Keys
    && forall k :: k in m' && !(k in m && m'[k] == m[k]) ==> m'[k] in es && m'[k].Key() == k
  }

  /** Under the key of each member of `es` sits a member of `es`, with its ends stored. */
  ghost predicate AllStored(st: State, es: seq<Edge>) {
    forall e :: e in es ==> e.Key() in st.edges && st.edges[e.Key()] in es && e.to in st.nodes
  }

  lemma RetiresThenRetires(m: map<ContentHash, MemoryNode>, m1: map<ContentHash, MemoryNode>, m2: map<ContentHash,
                           MemoryNode>, es: seq<Edge>, e: Edge)
    requires OnlyRetires(m, m1, es)
    requires
      || m2 == m1
      || (e.to in m1 && m1[e.to].status == Active && m2 == m1[e.to := Retire(m1[e.to], e.provenance.at)])
    ensures OnlyRetires(m, m2, es + [e])
  {
    assert e in es + [e];
    forall id | id in m && m2[id] != m[id] ensures IsRetirement(m[id], m2[id]) && Targeted(es + [e], id) {
      if m1[id] != m[id] {
        var x :| x in es && x.to == id;
        assert x in es + [e];
      }
    }
  }

  /** Supersessions only retire targets and store their own edges; when none is rejected,
      all of them are stored. */
  lemma {:induction false} SupersessionsOnly(st: State, es: seq<Edge>)
    ensures var p := ApplyAll(st, es);
      && p.state.inserters == st.inserters
      && OnlyRetires(st.nodes, p.state.nodes, es)
      && OnlyStores(st.edges, p.state.edges, es)
      && (p.error.None? ==> AllStored(p.state, es))
  {
    hide *;
    if es == [] {
      NoSupersessions(st, es);
    } else {
      var init, x := es[..|es| - 1], es[|es| - 1];
      SupersessionsOnly(st, init);
      assert es == init + [x];
      OneMoreSupersession(st, init, x);
    }
  }

  lemma NoSupersessions(st: State, es: seq<Edge>)
    requires es == []
    ensures ApplyAll(st, es) == Progress(st, 0, None)
    ensures OnlyRetires(st.nodes, st.nodes, es) && OnlyStores(st.edges, st.edges, es) && AllStored(st, es)
  {
  }

  lemma SupersessionShape(st: State, e: Edge)
    ensures match ApplySupersession(st, e)
      case Rejected(_) => true
      case Applied(st', transitioned) =>
        && transitioned == (e.to in st.nodes && st.nodes[e.to].status == Active)
        && e.from in st.nodes && e.to in st.nodes && e.kind == Supersedes && !e.quarantined && e.from != e.to
        && !Reaches(st.edges, Supersedes, e.to, e.from)
        && st' == st.(nodes := st'.nodes, edges := st.edges[e.Key() := e])
        && st'.nodes == if st.nodes[e.to].status == Active
                        then st.nodes[e.to := Retire(st.nodes[e.to], e.provenance.at)] else st.nodes
  {
    hide Reaches;
  }

  lemma OneMoreSupersession(st: State, init: seq<Edge>, x: Edge)
    requires var p := ApplyAll(st, init);
      && p.state.inserters == st.inserters
      && OnlyRetires(st.nodes, p.state.nodes, init)
      && OnlyStores(st.edges, p.state.edges, init)
      && (p.error.None? ==> AllStored(p.state, init))
    ensures var p := ApplyAll(st, init + [x]);
      && p.state.inserters == st.inserters
      && OnlyRetires(st.nodes, p.state.nodes, init + [x])
      && OnlyStores(st.edges, p.state.edges, init + [x])
      && (p.error.None? ==> AllStored(p.state, init + [x]))
  {
    hide ApplySupersession, Retire, OnlyRetires, OnlyStores, AllStored;
    assert (init + [x])[..|init|] == init;
    var p, q := ApplyAll(st, init), ApplyAll(st, init + [x]);
    SupersessionShape(p.state, x);
    RetiresThenRetires(st.nodes, p.state.nodes, q.state.nodes, init, x);
    SameKeys(st.nodes, p.state.nodes, init);
    StoresThenStores(st, p.state, q.state, init, x);
  }

  lemma StoresThenStores(st: State, st1: State, st2: State, es: seq<Edge>, e: Edge)
    requires OnlyStores(st.edges, st1.edges, es)
    requires st2.edges == st1.edges || st2.edges == st1.edges[e.Key() := e]
    ensures OnlyStores(st.edges, st2.edges, es + [e])
    ensures (&& AllStored(st1, es) && st2.edges == st1.edges[e.Key() := e]
             && e.to in st1.nodes && st1.nodes.Keys == st2.nodes.Keys) ==> AllStored(st2, es + [e])
  {
    var longer := es + [e];
    assert e in longer && forall x :: x in longer <==> x in es || x == e;
  }

  lemma SameKeys(m: map<ContentHash, MemoryNode>, m': map<ContentHash, MemoryNode>, es: seq<Edge>)
    requires OnlyRetires(m, m', es)
    ensures m'.Keys == m.Keys
  {
  }

  // ---- one merge ----

  /** The store between the checks and the supersessions. */
  lemma CommittedRows(st: State, d: MemoryDiff, caller: Option<Bytes>, now: nat)
    ensures var c := Committed(st, d, caller, now);
      && c.nodes == PutNodes(st.nodes, NodeWrites(st, d.nodes, caller, now))
      && c.edges == PutEdges(st.edges, Planned(st, d.nodes, d.edges, caller, now, PlainEdge))
  {
    var plain := Planned(st, d.nodes, d.edges, caller, now, PlainEdge);
    InsertersOnly(st.(nodes := PutNodes(st.nodes, NodeWrites(st, d.nodes, caller, now)),
                      edges := PutEdges(st.edges, plain)), d.nodes, plain, caller);
  }

  lemma {:induction false} FirstWithIdAuthor(ns: seq<MemoryNode>, id: ContentHash)
    ensures FirstWithId(ns, id).Some? ==> FirstWithId(ns, id).value.Id() == id
    ensures FirstWithId(ns, id).Some? <==> exists i :: 0 <= i < |ns| && ns[i].Id() == id
  {
    if ns != [] {
      FirstWithIdAuthor(ns[1..], id);
      if exists i :: 0 <= i < |ns| && ns[i].Id() == id {
        var i :| 0 <= i < |ns| && ns[i].Id() == id;
        assert i == 0 || ns[1..][i - 1].Id() == id;
      }
    }
  }

  /** A planned supersession of a node that exists once the batch is in belongs to its author. */
  lemma SupersessionIsByAuthor(st: State, d: MemoryDiff, e: Edge, caller: Option<Bytes>, now: nat)
    requires Keyed(st) && PlanEdge(st, d.nodes, e, caller, now) == SupersedeEdge
    requires e.to in Committed(st, d, caller, now).nodes
    ensures e.kind == Supersedes && !e.quarantined && caller == Some(e.to.author)
  {
    hide Committed, NodeWrites, PutNodes, Planned, FirstWithId, TargetAuthor;
    CommittedRows(st, d, caller, now);
    TargetIsKnown(st, d, caller, now, e.to);
  }

  /** The store once the batch is in and the supersessions have run as far as they do. */
  ghost function Written(st: State, d: MemoryDiff, caller: Option<Bytes>, now: nat): State {
    ApplyAll(Committed(st, d, caller, now), Planned(st, d.nodes, d.edges, caller, now, SupersedeEdge)).state
  }

  lemma WriteOverStoredIsOwn(st: State, n: MemoryNode, caller: Option<Bytes>, now: nat)
    requires n.Id() in st.nodes && PlanNode(st, n, caller, now).WriteNode?
    ensures caller == Some(n.author)
  {
  }

  lemma NodesChangeByAuthor(st: State, d: MemoryDiff, caller: Option<Bytes>, now: nat, id: ContentHash)
    requires Keyed(st) && (id in st.nodes || id in Written(st, d, caller, now).nodes)
    ensures var m := Written(st, d, caller, now).nodes;
      && id in m && m[id].Id() == id
      && (id in st.nodes && m[id] != st.nodes[id] ==> caller == Some(id.author))
  {
    hide PlanNode, PlanEdge, Committed, ApplyAll;
    var c := Committed(st, d, caller, now);
    var sup := Planned(st, d.nodes, d.edges, caller, now, SupersedeEdge);
    CommittedRows(st, d, caller, now);
    PlannedSpec(st, d.nodes, d.edges, caller, now, SupersedeEdge);
    SupersessionsOnly(c, sup);
    NodesAfter(st, d.nodes, caller, now, id);
    if i :| WritesNode(st, d.nodes, caller, now, i, id) && c.nodes[id] == PlanNode(st, d.nodes[i], caller, now).node {
      WriteKeepsId(st, d.nodes[i], caller, now);
      if id in st.nodes { WriteOverStoredIsOwn(st, d.nodes[i], caller, now); }
    }
    if Written(st, d, caller, now).nodes[id] != c.nodes[id] {
      var e :| e in sup && e.to == id;
      SupersessionIsByAuthor(st, d, e, caller, now);
    }
  }

  lemma PlannedOverStored(st: State, ns: seq<MemoryNode>, e: Edge, caller: Option<Bytes>, now: nat)
    requires e.Key() in st.edges
    requires PlanEdge(st, ns, e, caller, now) == PlainEdge || PlanEdge(st, ns, e, caller, now) == SupersedeEdge
    ensures caller == Some(st.edges[e.Key()].provenance.asserter)
  {
  }

  lemma EdgesChangeByAsserter(st: State, d: MemoryDiff, caller: Option<Bytes>, now: nat, k: EdgeKey)
    requires Keyed(st) && (k in st.edges || k in Written(st, d, caller, now).edges)
    ensures var m := Written(st, d, caller, now).edges;
      && k in m && m[k].Key() == k
      && (k in st.edges && m[k] != st.edges[k] ==> caller == Some(st.edges[k].provenance.asserter))
  {
    hide PlanEdge, Committed, ApplyAll;
    var plain := Planned(st, d.nodes, d.edges, caller, now, PlainEdge);
    var sup := Planned(st, d.nodes, d.edges, caller, now, SupersedeEdge);
    var c, m := Committed(st, d, caller, now), Written(st, d, caller, now).edges;
    CommittedRows(st, d, caller, now);
    PlannedSpec(st, d.nodes, d.edges, caller, now, PlainEdge);
    PlannedSpec(st, d.nodes, d.edges, caller, now, SupersedeEdge);
    EdgesAfter(st.edges, plain, k);
    SupersessionsOnly(c, sup);
    if k in st.edges && m[k] != st.edges[k] {
      PlannedOverStored(st, d.nodes, m[k], caller, now);
    }
  }

  /** Only an item's author changes it: after any merge, accepted or not, every stored node is
      still there and differs only if the caller is its author, every stored edge is still
      there and differs only if the caller is the asserter it was stored with, and a diff
      refused by a check leaves the store as it was. */
  lemma OnlyAuthorsChange(scheme: SignatureScheme, st: State, d: MemoryDiff, caller: Option<Bytes>, now: nat)
    requires Keyed(st)
    ensures var (st', r) := ApplyDiff(scheme, st, d, caller, now);
      && Keyed(st')
      && st.nodes.Keys <= st'.nodes.Keys && st.edges.Keys <= st'.edges.Keys
      && (forall id :: id in st.nodes && st'.nodes[id] != st.nodes[id] ==> caller == Some(st.nodes[id].author))
      && (forall k :: k in st.edges && st'.edges[k] != st.edges[k] ==> caller == Some(st.edges[k].provenance.asserter))
      && (Refusal(scheme, st, d, caller, now).Some? ==> st' == st && r.Err?)
  {
    hide Committed, ApplyAll, Refusal, PlanEdge, PlanNode;
    var st' := ApplyDiff(scheme, st, d, caller, now).0;
    if Refusal(scheme, st, d, caller, now).None? {
      forall id | id in st.nodes || id in st'.nodes
        ensures id in st'.nodes && st'.nodes[id].Id() == id
        ensures id in st.nodes && st'.nodes[id] != st.nodes[id] ==> caller == Some(id.author)
      {
        NodesChangeByAuthor(st, d, caller, now, id);
      }
      forall k | k in st.edges || k in st'.edges
        ensures k in st'.edges && st'.edges[k].Key() == k
        ensures k in st.edges && st'.edges[k] != st.edges[k] ==> caller == Some(st.edges[k].provenance.asserter)
      {
        EdgesChangeByAsserter(st, d, caller, now, k);
      }
    }
  }

  // ---- what the report counts ----

  /** The nodes retired between two states. */
  ghost function Retired(m: map<ContentHash, MemoryNode>, m': map<ContentHash, MemoryNode>): set<ContentHash> {
    set id | id in m && id in m' && m[id].status == Active && m'[id].status != Active
  }

  /** The report's count of supersessions is the number of nodes retired. */
  lemma {:induction false} ReportCountsRetired(st: State, es: seq<Edge>)
    ensures ApplyAll(st, es).superseded == |Retired(st.nodes, ApplyAll(st, es).state.nodes)|
  {
    hide ApplySupersession, OnlyStores, AllStored;
    if es == [] {
      assert Retired(st.nodes, st.nodes) == {};
    } else {
      var init, x := es[..|es| - 1], es[|es| - 1];
      var p, q := ApplyAll(st, init), ApplyAll(st, es);
      ReportCountsRetired(st, init);
      SupersessionsOnly(st, init);
      SupersessionShape(p.state, x);
      if p.error.None? && ApplySupersession(p.state, x).Applied? && p.state.nodes[x.to].status == Active {
        assert Retired(st.nodes, q.state.nodes) == Retired(st.nodes, p.state.nodes) + {x.to};
      } else {
        assert q.state.nodes == p.state.nodes;
      }
    }
  }

  // ---- contested nodes ----

  lemma ContestingPlan(st: State, ns: seq<MemoryNode>, e: Edge, caller: Option<Bytes>, now: nat)
    requires PlanEdge(st, ns, e, caller, now) == PlainEdge && NeedsSecondParty(e.kind) && e.quarantined
    requires TargetAuthor(st, ns, e.to).Some? && caller != TargetAuthor(st, ns, e.to)
    ensures caller == Some(e.provenance.asserter)
    ensures e.kind == Supersedes ==> AbsDiff(e.provenance.at, now) <= RELAY_CLOCK_SKEW_MS
  {
  }

  /** Inserters are recorded for exactly the proposals with a known target. */
  lemma {:induction false} InsertersRecorded(st: State, ns: seq<MemoryNode>, plain: seq<Edge>, caller: Option<Bytes>,
                                             k: EdgeKey)
    ensures var m := RecordInserters(st, ns, plain, caller).inserters;
      if caller.Some? && NeedsSecondParty(k.kind) && (FirstWithId(ns, k.to).Some? || k.to in st.nodes)
         && exists e :: e in plain && e.Key() == k && e.quarantined
      then k in m && m[k] == caller.value
      else (k in m <==> k in st.inserters) && (k in m ==> m[k] == st.inserters[k])
  {
    hide FirstWithId;
    if plain != [] {
      var init, x := plain[..|plain| - 1], plain[|plain| - 1];
      InsertersRecorded(st, ns, init, caller, k);
      assert plain == init + [x];
      if e :| e in plain && e.Key() == k && e.quarantined { assert e == x || e in init; }
    }
  }

  /** Only proposals whose target is stored have an inserter on record. */
  ghost predicate InsertersKnown(st: State) {
    forall k :: k in st.inserters ==> k.to in st.nodes
  }

  /** The row under `k` is the same in both stores. */
  ghost predicate SameEdgeRow(st: State, st': State, k: EdgeKey) {
    (k in st.edges <==> k in st'.edges) && (k in st.edges ==> st.edges[k] == st'.edges[k])
  }

  /** A planned edge is no copy of the stored one, and a plain one does not demote it. */
  lemma PlannedDiffers(st: State, ns: seq<MemoryNode>, e: Edge, caller: Option<Bytes>, now: nat)
    requires PlanEdge(st, ns, e, caller, now) == PlainEdge || PlanEdge(st, ns, e, caller, now) == SupersedeEdge
    ensures e.Key() in st.edges ==> st.edges[e.Key()] != e
    ensures !Demotes(st.edges, e)
  {
  }

  /** Where an edge row comes from in one merge: it is as it was, and nothing plain was planned
      for it; or it holds a planned edge and is different. */
  lemma EdgeRowAfter(st: State, d: MemoryDiff, caller: Option<Bytes>, now: nat, k: EdgeKey)
    requires Keyed(st)
    ensures var st' := Written(st, d, caller, now);
      && (SameEdgeRow(st, st', k) ==>
            forall e :: e in Planned(st, d.nodes, d.edges, caller, now, PlainEdge) ==> e.Key() != k)
      && (!SameEdgeRow(st, st', k) ==>
            && k in st'.edges && st'.edges[k].Key() == k
            && (st'.edges[k].quarantined ==> st'.edges[k] in Planned(st, d.nodes, d.edges, caller, now, PlainEdge)))
  {
    hide PlanEdge, Committed, ApplyAll, Planned, PutEdges, Keyed;
    var plain := Planned(st, d.nodes, d.edges, caller, now, PlainEdge);
    var sup := Planned(st, d.nodes, d.edges, caller, now, SupersedeEdge);
    var c, st' := Committed(st, d, caller, now), Written(st, d, caller, now);
    CommittedRows(st, d, caller, now);
    PlannedSpec(st, d.nodes, d.edges, caller, now, PlainEdge);
    PlannedSpec(st, d.nodes, d.edges, caller, now, SupersedeEdge);
    EdgesAfter(st.edges, plain, k);
    SupersessionsOnly(c, sup);
    forall e | e in plain || e in sup
      ensures !Demotes(st.edges, e) && (e.Key() in st.edges ==> st.edges[e.Key()] != e)
    {
      PlannedDiffers(st, d.nodes, e, caller, now);
    }
    forall e | e in sup ensures !e.quarantined { SupersedePlanIsLoadBearing(st, d.nodes, e, caller, now); }
    if e :| e in plain && e.Key() == k {
      var i :| 0 <= i < |plain| && plain[i] == e;
      assert k in c.edges && c.edges[k] in plain;
    }
  }

  /** A merge that passed the checks leaves every node of its diff stored. */
  lemma DiffNodesStored(st: State, d: MemoryDiff, caller: Option<Bytes>, now: nat, id: ContentHash)
    requires Keyed(st) && !NodeRefusal(st, d.nodes, caller, now)
    ensures id in Committed(st, d, caller, now).nodes <==> FirstWithId(d.nodes, id).Some? || id in st.nodes
  {
    hide Committed, NodeWrites, PutNodes, PlanNode, FirstWithId, Planned;
    CommittedRows(st, d, caller, now);
    NodesAfter(st, d.nodes, caller, now, id);
    FirstWithIdAuthor(d.nodes, id);
    if i :| 0 <= i < |d.nodes| && d.nodes[i].Id() == id {
      assert !PlanNode(st, d.nodes[i], caller, now).RefuseNode?;
      SkippedIsStored(st, d.nodes[i], caller, now);
      assert PlanNode(st, d.nodes[i], caller, now).WriteNode? ==> WritesNode(st, d.nodes, caller, now, i, id);
    }
  }

  lemma SkippedIsStored(st: State, n: MemoryNode, caller: Option<Bytes>, now: nat)
    ensures PlanNode(st, n, caller, now).SkipNode? ==> n.Id() in st.nodes
  {
  }

  /** What one merge does to the inserter of an edge key: it records the caller when a proposal
      with a known target was planned for it, and else leaves it. */
  lemma InserterAfter(scheme: SignatureScheme, st: State, d: MemoryDiff, caller: Option<Bytes>, now: nat, k: EdgeKey)
    requires Keyed(st)
    ensures var st' := ApplyDiff(scheme, st, d, caller, now).0;
      if Refusal(scheme, st, d, caller, now).None? && caller.Some? && NeedsSecondParty(k.kind) && k.to in st'.nodes
         && exists e :: e in Planned(st, d.nodes, d.edges, caller, now, PlainEdge) && e.Key() == k && e.quarantined
      then k in st'.inserters && st'.inserters[k] == caller.value
      else (k in st'.inserters <==> k in st.inserters) && (k in st'.inserters ==> st'.inserters[k] == st.inserters[k])
  {
    hide ApplyAll, NodeWrites, PutNodes, PutEdges, Planned, RecordInserters, NodeRefusal, EdgeRefusal, FirstWithId,
      VerifyNodes, VerifyEdges;
    if Refusal(scheme, st, d, caller, now).None? {
      var plain := Planned(st, d.nodes, d.edges, caller, now, PlainEdge);
      var c := Committed(st, d, caller, now);
      var written := st.(nodes := PutNodes(st.nodes, NodeWrites(st, d.nodes, caller, now)),
                         edges := PutEdges(st.edges, plain));
      InsertersRecorded(written, d.nodes, plain, caller, k);
      DiffNodesStored(st, d, caller, now, k.to);
      CommittedRows(st, d, caller, now);
      var sup := Planned(st, d.nodes, d.edges, caller, now, SupersedeEdge);
      SupersessionsOnly(c, sup);
      SameKeys(c.nodes, ApplyAll(c, sup).state.nodes, sup);
      assert FirstWithId(d.nodes, k.to).Some? ==> k.to in c.nodes;
    }
  }

  /** The rule for proposals that contest someone else's node: signed by the caller, current if
      they supersede, with the caller on record. */
  ghost predicate Attributed(st: State, k: EdgeKey, caller: Option<Bytes>, now: nat)
    requires k in st.edges
  {
    && caller == Some(st.edges[k].provenance.asserter)
    && (k.kind == Supersedes ==> AbsDiff(st.edges[k].provenance.at, now) <= RELAY_CLOCK_SKEW_MS)
    && k in st.inserters && st.inserters[k] == caller.value
  }

  /** A merge that writes a proposal contesting someone else's node obeys the rule exactly when
      the target is stored by then. */
  lemma ContestingProposals(scheme: SignatureScheme, st: State, d: MemoryDiff, caller: Option<Bytes>, now: nat,
                            k: EdgeKey)
    requires Keyed(st) && InsertersKnown(st) && NeedsSecondParty(k.kind) && caller != Some(k.to.author)
    requires var st' := ApplyDiff(scheme, st, d, caller, now).0;
      !SameEdgeRow(st, st', k) && k in st'.edges && st'.edges[k].quarantined
    ensures var st' := ApplyDiff(scheme, st, d, caller, now).0; Attributed(st', k, caller, now) <==> k.to in st'.nodes
  {
    hide PlanEdge, PlanNode, ApplyAll, Refusal, NodeWrites, PutNodes, PutEdges, Planned, RecordInserters, Committed;
    var st' := ApplyDiff(scheme, st, d, caller, now).0;
    EdgeRowAfter(st, d, caller, now, k);
    InserterAfter(scheme, st, d, caller, now, k);
    if k.to in st'.nodes {
      var e := st'.edges[k];
      PlannedSpec(st, d.nodes, d.edges, caller, now, PlainEdge);
      CommittedRows(st, d, caller, now);
      var c, sup := Committed(st, d, caller, now), Planned(st, d.nodes, d.edges, caller, now, SupersedeEdge);
      SupersessionsOnly(c, sup);
      SameKeys(c.nodes, st'.nodes, sup);
      TargetIsKnown(st, d, caller, now, k.to);
      ContestingPlan(st, d.nodes, e, caller, now);
    } else {
      OnlyAuthorsChange(scheme, st, d, caller, now);
    }
  }

  /** The other case: a proposal on an id nobody has stored yet gets in whoever signed it and
      whatever its time, and leaves no inserter on record. */
  lemma UnknownTargetIsUnchecked(scheme: SignatureScheme, st: State, e: Edge, caller: Option<Bytes>, now: nat)
    requires Keyed(st) && InsertersKnown(st) && e.Key() !in st.edges && e.to !in st.nodes
    requires NeedsSecondParty(e.kind) && e.quarantined && VerifyEdge(scheme, e).None?
    ensures var (st', r) := ApplyDiff(scheme, st, MemoryDiff([], [e]), caller, now);
      r.Ok? && st' == st.(edges := st.edges[e.Key() := e]) && e.Key() !in st'.inserters
  {
    hide ApplyDiff, PlanEdge, VerifyEdge;
    UnknownPlan(st, e, caller, now);
    OnePlainEdge(scheme, st, e, caller, now);
  }

  lemma UnknownPlan(st: State, e: Edge, caller: Option<Bytes>, now: nat)
    requires e.Key() !in st.edges && e.to !in st.nodes && e.quarantined
    ensures PlanEdge(st, [], e, caller, now) == PlainEdge
  {
  }

  lemma SupersedePlanIsLoadBearing(st: State, ns: seq<MemoryNode>, e: Edge, caller: Option<Bytes>, now: nat)
    requires PlanEdge(st, ns, e, caller, now) == SupersedeEdge
    ensures e.kind == Supersedes && !e.quarantined
  {
  }

  lemma TargetIsKnown(st: State, d: MemoryDiff, caller: Option<Bytes>, now: nat, to: ContentHash)
    requires Keyed(st) && to in PutNodes(st.nodes, NodeWrites(st, d.nodes, caller, now))
    ensures TargetAuthor(st, d.nodes, to) == Some(to.author)
  {
    hide PlanNode, NodeWrites, PutNodes, FirstWithId;
    NodesAfter(st, d.nodes, caller, now, to);
    FirstWithIdAuthor(d.nodes, to);
  }

  /** Who can make an edge load-bearing on arrival: its asserter, or, for a supersession, the
      author of the superseded node, whoever signed the edge. */
  lemma LoadBearingArrivals(scheme: SignatureScheme, st: State, d: MemoryDiff, caller: Option<Bytes>, now: nat,
                            k: EdgeKey)
    requires Keyed(st) && k !in st.edges
    requires var st' := ApplyDiff(scheme, st, d, caller, now).0; k in st'.edges && !st'.edges[k].quarantined
    ensures var e := ApplyDiff(scheme, st, d, caller, now).0.edges[k];
      caller == Some(e.provenance.asserter) || (k.kind == Supersedes && caller == Some(k.to.author))
  {
    hide PlanEdge, Committed, ApplyAll, Refusal, PlanNode;
    var plain := Planned(st, d.nodes, d.edges, caller, now, PlainEdge);
    var sup := Planned(st, d.nodes, d.edges, caller, now, SupersedeEdge);
    var c, e := Committed(st, d, caller, now), ApplyDiff(scheme, st, d, caller, now).0.edges[k];
    CommittedRows(st, d, caller, now);
    PlannedSpec(st, d.nodes, d.edges, caller, now, PlainEdge);
    PlannedSpec(st, d.nodes, d.edges, caller, now, SupersedeEdge);
    EdgesAfter(st.edges, plain, k);
    SupersessionsOnly(c, sup);
    EdgesChangeByAsserter(st, d, caller, now, k);
    if e in sup {
      SupersededExist(c, sup, k);
      SupersessionIsByAuthor(st, d, e, caller, now);
    } else {
      PlainArrival(st, d.nodes, e, caller, now);
    }
  }

  lemma PlainArrival(st: State, ns: seq<MemoryNode>, e: Edge, caller: Option<Bytes>, now: nat)
    requires PlanEdge(st, ns, e, caller, now) == PlainEdge && e.Key() !in st.edges && !e.quarantined
    ensures caller == Some(e.provenance.asserter)
  {
  }

  /** The target of every newly stored supersession is a stored node. */
  lemma {:induction false} SupersededExist(st: State, es: seq<Edge>, k: EdgeKey)
    requires k in ApplyAll(st, es).state.edges
    ensures (k in st.edges && ApplyAll(st, es).state.edges[k] == st.edges[k]) || k.to in st.nodes
  {
    hide ApplySupersession, OnlyRetires, OnlyStores, AllStored;
    if es != [] {
      var init, x := es[..|es| - 1], es[|es| - 1];
      SupersessionShape(ApplyAll(st, init).state, x);
      SupersessionsOnly(st, init);
      SameKeys(st.nodes, ApplyAll(st, init).state.nodes, init);
      if k in ApplyAll(st, init).state.edges { SupersededExist(st, init, k); }
    }
  }

  /** The merge is documented to refuse every new load-bearing edge relayed by someone other than
      its asserter. It does, exactly unless the edge is a supersession whose target is unknown or
      the caller's own. */
  lemma RelayedEdgeIsRefused(st: State, ns: seq<MemoryNode>, e: Edge, caller: Option<Bytes>, now: nat)
    requires e.Key() !in st.edges && !e.quarantined && caller != Some(e.provenance.asserter)
    ensures PlanEdge(st, ns, e, caller, now).RefuseEdge? <==>
      e.kind != Supersedes || (TargetAuthor(st, ns, e.to).Some? && caller != TargetAuthor(st, ns, e.to))
  {
  }

  /** The exception happens: a load-bearing supersession signed by someone else is stored when
      the caller wrote the superseded node. */
  lemma RelayedSupersessionIsStored(scheme: SignatureScheme, st: State, e: Edge, caller: Bytes, now: nat)
    requires Keyed(st) && e.Key() !in st.edges && e.from in st.nodes && e.to in st.nodes
    requires e.kind == Supersedes && !e.quarantined && e.from != e.to && e.plane == Asserted
    requires st.nodes[e.to].plane == Asserted && e.to.author == caller != e.provenance.asserter
    requires !Reaches(st.edges, Supersedes, e.to, e.from) && VerifyEdge(scheme, e).None?
    ensures var (st', r) := ApplyDiff(scheme, st, MemoryDiff([], [e]), Some(caller), now);
      r.Ok? && e.Key() in st'.edges && st'.edges[e.Key()] == e
  {
    hide Reaches, PlanEdge, PlanNode, ApplySupersession, VerifyEdge, VerifyEdges, EdgeRefusal, Planned;
    var d := MemoryDiff([], [e]);
    RelayedPlan(st, e, caller, now);
    OneEdge(scheme, st, [], e, Some(caller), now);
    assert Committed(st, d, Some(caller), now) == st;
    assert [e][..0] == [] && ApplyAll(st, [e][..0]) == Progress(st, 0, None);
    assert ApplyAll(st, [e]).error.None? && ApplyAll(st, [e]).state == ApplySupersession(st, e).state;
  }

  lemma RelayedPlan(st: State, e: Edge, caller: Bytes, now: nat)
    requires Keyed(st) && e.Key() !in st.edges && e.from in st.nodes && e.to in st.nodes
    requires e.kind == Supersedes && !e.quarantined && e.from != e.to && e.plane == Asserted
    requires st.nodes[e.to].plane == Asserted && e.to.author == caller
    requires !Reaches(st.edges, Supersedes, e.to, e.from)
    ensures PlanEdge(st, [], e, Some(caller), now) == SupersedeEdge
    ensures ApplySupersession(st, e).Applied? && ApplySupersession(st, e).state.edges == st.edges[e.Key() := e]
  {
    hide Reaches;
  }
}
