/** Safety over whole runs of merges and confirmations. */
module DiffRuns {
  import opened Sorting
  import opened Core
  import opened Store
  import opened Diff
  import opened DiffEffects

  datatype Step =
    | Submit(diff: MemoryDiff, caller: Option<Bytes>, now: nat)
    | Confirmation(key: EdgeKey, now: nat)

  ghost function Next(scheme: SignatureScheme, st: State, step: Step): State {
    match step
    case Submit(d, caller, now) => ApplyDiff(scheme, st, d, caller, now).0
    case Confirmation(key, now) => ConfirmEdge(st, key, now).0
  }

  ghost function Run(scheme: SignatureScheme, st: State, steps: seq<Step>): State
    decreases |steps|
  {
    if steps == [] then st else Run(scheme, Next(scheme, st, steps[0]), steps[1..])
  }

  ghost predicate SubmittedByOthers(steps: seq<Step>, who: Bytes) {
    forall i :: 0 <= i < |steps| ==> steps[i].Submit? && steps[i].caller != Some(who)
  }

  /** However many merges others make, a stored node stays exactly as it is. */
  lemma {:induction false} OthersNeverChangeNode(scheme: SignatureScheme, st: State, steps: seq<Step>, id: ContentHash)
    requires Keyed(st) && id in st.nodes && SubmittedByOthers(steps, id.author)
    ensures id in Run(scheme, st, steps).nodes && Run(scheme, st, steps).nodes[id] == st.nodes[id]
    decreases |steps|
  {
    hide ApplyDiff;
    if steps != [] {
      var s := steps[0];
      OnlyAuthorsChange(scheme, st, s.diff, s.caller, s.now);
      OthersNeverChangeNode(scheme, Next(scheme, st, s), steps[1..], id);
    }
  }

  /** Likewise a stored edge, against everyone but the asserter it is stored with. */
  lemma {:induction false} OthersNeverChangeEdge(scheme: SignatureScheme, st: State, steps: seq<Step>, k: EdgeKey)
    requires Keyed(st) && k in st.edges && SubmittedByOthers(steps, st.edges[k].provenance.asserter)
    ensures k in Run(scheme, st, steps).edges && Run(scheme, st, steps).edges[k] == st.edges[k]
    decreases |steps|
  {
    hide ApplyDiff;
    if steps != [] {
      var s := steps[0];
      OnlyAuthorsChange(scheme, st, s.diff, s.caller, s.now);
      OthersNeverChangeEdge(scheme, Next(scheme, st, s), steps[1..], k);
    }
  }

  // ---- the supersession DAG (specs/SupersededDag.tla) ----

  ghost function LoadBearing(edges: map<EdgeKey, Edge>): map<EdgeKey, Edge> {
    map k | k in edges && k.kind == Supersedes && !edges[k].quarantined :: edges[k]
  }

  ghost predicate Acyclic(edges: map<EdgeKey, Edge>) {
    forall x :: !Reaches(LoadBearing(edges), Supersedes, x, x)
  }

  /** "Latest" is well defined: both ends of a load-bearing supersession are stored and its
      target is not Active. */
  ghost predicate LatestWellDefined(st: State) {
    forall k :: k in LoadBearing(st.edges) ==>
      k.from in st.nodes && k.to in st.nodes && st.nodes[k.to].status != Active
  }

  ghost predicate Sound(st: State) {
    Keyed(st) && Acyclic(st.edges) && LatestWellDefined(st)
  }

  /** The guard of apply_supersession keeps the graph acyclic: from the new target only nodes
      already reachable from it can be reached, and the new source is not among them. */
  lemma GuardKeepsAcyclic(edges: map<EdgeKey, Edge>, e: Edge)
    requires Acyclic(edges)
    requires e.kind == Supersedes && !e.quarantined && e.from != e.to
    requires !Reaches(edges, Supersedes, e.to, e.from)
    ensures Acyclic(edges[e.Key() := e])
  {
    var all := edges.Keys;
    var l, l' := LoadBearing(edges), LoadBearing(edges[e.Key() := e]);
    var universe := set k | k in all :: k.to;
    var beyond := {e.to} + set x | x in universe && Reaches(edges, Supersedes, e.to, x);
    assert Closed(l', Supersedes, beyond) by {
      forall k | k in l' && k.from in beyond ensures k.to in beyond {
        assert k in edges && k == EdgeKey(k.from, k.to, Supersedes);
        ExtendWalk(edges, Supersedes, e.to, k.from, k.to);
      }
    }
    forall x ensures !Reaches(l', Supersedes, x, x) {
      if Reaches(l', Supersedes, x, x) {
        var p :| WalkFromTo(l', Supersedes, p, x, x);
        forall i | 0 <= i < |p| - 1 ensures EdgeKey(p[i], p[i + 1], Supersedes) in l {
          if EdgeKey(p[i], p[i + 1], Supersedes) == e.Key() {
            // the rest of the cycle stays beyond the new target, so all of it does
            var tail := p[i + 1..];
            assert forall j :: 0 <= j < |tail| - 1 ==>
              EdgeKey(tail[j], tail[j + 1], Supersedes) == EdgeKey(p[i + 1 + j], p[i + 1 + j + 1], Supersedes);
            WalkStaysIn(l', Supersedes, beyond, tail, |tail| - 1);
            WalkStaysIn(l', Supersedes, beyond, p, i);
            assert false;
          }
        }
        assert WalkFromTo(l, Supersedes, p, x, x);
        assert Reaches(l, Supersedes, x, x);
      }
    }
  }

  lemma SupersessionKeepsSound(st: State, e: Edge)
    requires Sound(st) && ApplySupersession(st, e).Applied?
    ensures Sound(ApplySupersession(st, e).state)
  {
    hide ApplySupersession, Reaches, Acyclic, LatestWellDefined;
    SupersessionShape(st, e);
    GuardKeepsAcyclic(st.edges, e);
    LatestStays(st, ApplySupersession(st, e).state, e);
  }

  lemma LatestStays(st: State, st': State, e: Edge)
    requires LatestWellDefined(st) && e.from in st.nodes && e.to in st.nodes && e.kind == Supersedes
    requires st'.edges == st.edges[e.Key() := e]
    requires st'.nodes == if st.nodes[e.to].status == Active
                          then st.nodes[e.to := Retire(st.nodes[e.to], e.provenance.at)] else st.nodes
    ensures LatestWellDefined(st')
  {
    forall k | k in LoadBearing(st'.edges)
      ensures k.from in st'.nodes && k.to in st'.nodes && st'.nodes[k.to].status != Active
    {
      assert k == e.Key() || k in LoadBearing(st.edges);
    }
  }

  lemma {:induction false} SupersessionsKeepSound(st: State, es: seq<Edge>)
    requires Sound(st)
    ensures Sound(ApplyAll(st, es).state)
  {
    hide ApplySupersession, Sound;
    if es != [] {
      SupersessionsKeepSound(st, es[..|es| - 1]);
      var p := ApplyAll(st, es[..|es| - 1]);
      if p.error.None? && ApplySupersession(p.state, es[|es| - 1]).Applied? {
        SupersessionKeepsSound(p.state, es[|es| - 1]);
      }
    }
  }

  /** The plain commit neither adds nor drops a load-bearing supersession. */
  lemma CommitKeepsLoadBearing(st: State, d: MemoryDiff, caller: Option<Bytes>, now: nat)
    requires Keyed(st)
    ensures LoadBearing(Committed(st, d, caller, now).edges) == LoadBearing(st.edges)
  {
    hide Committed, Planned, PlanEdge, PutEdges, PutNodes, NodeWrites;
    var plain := Planned(st, d.nodes, d.edges, caller, now, PlainEdge);
    var l, l' := LoadBearing(st.edges), LoadBearing(Committed(st, d, caller, now).edges);
    CommittedRows(st, d, caller, now);
    PlannedSpec(st, d.nodes, d.edges, caller, now, PlainEdge);
    forall k ensures k in l <==> k in l'
             ensures k in l ==> l[k] == l'[k]
    {
      EdgesAfter(st.edges, plain, k);
      forall e | e in plain && e.kind == Supersedes
        ensures e.quarantined && (e.Key() in st.edges ==> st.edges[e.Key()].quarantined)
      {
        PlainSupersedes(st, d.nodes, e, caller, now);
      }
    }
  }

  /** A plain supersession is a proposal, and nothing load-bearing is under its key. */
  lemma PlainSupersedes(st: State, ns: seq<MemoryNode>, e: Edge, caller: Option<Bytes>, now: nat)
    requires PlanEdge(st, ns, e, caller, now) == PlainEdge && e.kind == Supersedes
    ensures e.quarantined && (e.Key() in st.edges ==> st.edges[e.Key()].quarantined)
  {
  }

  lemma WriteNeverRevives(st: State, n: MemoryNode, caller: Option<Bytes>, now: nat)
    requires Keyed(st) && PlanNode(st, n, caller, now).WriteNode?
    ensures var w := PlanNode(st, n, caller, now).node;
      w.Id() == n.Id() && (n.Id() in st.nodes && st.nodes[n.Id()].status != Active ==> w.status != Active)
  {
    WriteKeepsId(st, n, caller, now);
  }

  lemma CommitKeepsSound(st: State, d: MemoryDiff, caller: Option<Bytes>, now: nat)
    requires Sound(st)
    ensures Sound(Committed(st, d, caller, now))
  {
    hide Reaches, Committed, PlanEdge, Planned, PutEdges, PutNodes, NodeWrites, LoadBearing;
    var c := Committed(st, d, caller, now);
    var plain := Planned(st, d.nodes, d.edges, caller, now, PlainEdge);
    CommittedRows(st, d, caller, now);
    CommitKeepsLoadBearing(st, d, caller, now);
    PlannedSpec(st, d.nodes, d.edges, caller, now, PlainEdge);
    forall id | id in st.nodes || id in c.nodes
      ensures id in c.nodes && c.nodes[id].Id() == id
      ensures id in st.nodes && st.nodes[id].status != Active ==> c.nodes[id].status != Active
    {
      NodesAfter(st, d.nodes, caller, now, id);
      hide PlanNode;
      forall i | WritesNode(st, d.nodes, caller, now, i, id)
        ensures PlanNode(st, d.nodes[i], caller, now).node.Id() == id
        ensures id in st.nodes && st.nodes[id].status != Active ==>
          PlanNode(st, d.nodes[i], caller, now).node.status != Active
      {
        WriteNeverRevives(st, d.nodes[i], caller, now);
      }
    }
    forall k | k in c.edges ensures c.edges[k].Key() == k { EdgesAfter(st.edges, plain, k); }
  }

  /** In every run of merges and confirmations, by anyone and with any diffs, the load-bearing
      supersessions stay acyclic and "latest" stays well defined. */
  lemma {:induction false} RunsKeepSound(scheme: SignatureScheme, st: State, steps: seq<Step>)
    requires Sound(st)
    ensures Sound(Run(scheme, st, steps))
    decreases |steps|
  {
    hide Sound, Committed, ApplyAll, ConfirmEdge;
    if steps != [] {
      match steps[0] {
        case Submit(d, caller, now) =>
          CommitKeepsSound(st, d, caller, now);
          SupersessionsKeepSound(Committed(st, d, caller, now), Planned(st, d.nodes, d.edges, caller, now,
                                 SupersedeEdge));
        case Confirmation(key, now) => ConfirmationKeepsSound(st, key, now);
      }
      RunsKeepSound(scheme, Next(scheme, st, steps[0]), steps[1..]);
    }
  }

  lemma ConfirmationKeepsSound(st: State, key: EdgeKey, now: nat)
    requires Sound(st)
    ensures Sound(ConfirmEdge(st, key, now).0)
  {
    hide ApplySupersession, Reaches, Acyclic, LoadBearing;
    if key in st.edges && st.edges[key].quarantined {
      var edge := st.edges[key].(quarantined := false);
      if edge.kind == Supersedes {
        var stamped := edge.(provenance := edge.provenance.(at := now));
        if ApplySupersession(st, stamped).Applied? { SupersessionKeepsSound(st, stamped); }
      } else {
        OtherKindKeepsLoadBearing(st.edges, key, edge);
      }
    }
  }

  lemma OtherKindKeepsLoadBearing(edges: map<EdgeKey, Edge>, key: EdgeKey, edge: Edge)
    requires edge.Key() == key && !edge.quarantined && key.kind != Supersedes
    ensures PutEdges(edges, [edge]) == edges[key := edge]
    ensures LoadBearing(edges[key := edge]) == LoadBearing(edges)
    ensures Acyclic(edges) <==> Acyclic(edges[key := edge])
  {
    hide Reaches;
    assert [edge][..0] == [] && PutEdges(edges, [edge][..0]) == edges;
    assert LoadBearing(edges[key := edge]) == LoadBearing(edges);
  }

  lemma EmptyStoreIsSound()
    ensures Sound(State(map[], map[], map[]))
  {
    forall x, p: seq<ContentHash> ensures !WalkFromTo(LoadBearing(map[]), Supersedes, p, x, x) {
      assert |p| >= 2 ==> EdgeKey(p[0], p[0 + 1], Supersedes) !in LoadBearing(map[]);
    }
  }

  // ---- contested nodes over a run ----

  /** The store after the first `j` steps. */
  ghost function After(scheme: SignatureScheme, st: State, steps: seq<Step>, j: nat): State
    requires j <= |steps|
  {
    Run(scheme, st, steps[..j])
  }

  lemma {:induction false} RunSnoc(scheme: SignatureScheme, st: State, steps: seq<Step>, last: Step)
    ensures Run(scheme, st, steps + [last]) == Next(scheme, Run(scheme, st, steps), last)
    decreases |steps|
  {
    hide Next;
    if steps == [] {
      assert steps + [last] == [last] && [last][1..] == [];
    } else {
      RunSnoc(scheme, Next(scheme, st, steps[0]), steps[1..], last);
      assert (steps + [last])[1..] == steps[1..] + [last];
    }
  }

  lemma AfterStep(scheme: SignatureScheme, st: State, steps: seq<Step>, j: nat)
    requires j < |steps|
    ensures After(scheme, st, steps, j + 1) == Next(scheme, After(scheme, st, steps, j), steps[j])
  {
    hide Next, Run;
    assert steps[..j + 1] == steps[..j] + [steps[j]];
    RunSnoc(scheme, st, steps[..j], steps[j]);
  }

  /** A confirmation keeps rows, ids and inserters; an edge it changes is no proposal any more. */
  lemma ConfirmationOnlyPromotes(st: State, key: EdgeKey, now: nat, k: EdgeKey)
    requires Keyed(st)
    ensures var st' := ConfirmEdge(st, key, now).0;
      && Keyed(st') && st'.inserters == st.inserters && st'.nodes.Keys == st.nodes.Keys
      && (!SameEdgeRow(st, st', k) ==> k in st'.edges && !st'.edges[k].quarantined)
  {
    hide ApplySupersession, LoadBearing, Acyclic, PutEdges;
    if key in st.edges && st.edges[key].quarantined {
      var edge := st.edges[key].(quarantined := false);
      if edge.kind == Supersedes {
        SupersessionShape(st, edge.(provenance := edge.provenance.(at := now)));
      } else {
        OtherKindKeepsLoadBearing(st.edges, key, edge);
      }
    }
  }

  ghost predicate Tracked(st: State) { Keyed(st) && InsertersKnown(st) }

  /** Every step keeps inserters on known targets, and changes an inserter only with its edge. */
  lemma StepKeepsTracked(scheme: SignatureScheme, st: State, step: Step, k: EdgeKey)
    requires Tracked(st)
    ensures var st' := Next(scheme, st, step);
      && Tracked(st') && st.nodes.Keys <= st'.nodes.Keys
      && (SameEdgeRow(st, st', k) ==>
            (k in st'.inserters <==> k in st.inserters) && (k in st'.inserters ==> st'.inserters[k] == st.inserters[k]))
  {
    hide ApplyDiff, ConfirmEdge, Refusal, SameEdgeRow;
    var st' := Next(scheme, st, step);
    match step {
      case Submit(d, caller, now) =>
        OnlyAuthorsChange(scheme, st, d, caller, now);
        forall x | x in st'.inserters ensures x.to in st'.nodes { InserterAfter(scheme, st, d, caller, now, x); }
        InserterAfter(scheme, st, d, caller, now, k);
        if Refusal(scheme, st, d, caller, now).None? {
          EdgeRowAfter(st, d, caller, now, k);
          PassedIsWritten(scheme, st, d, caller, now);
        }
      case Confirmation(key, now) =>
        ConfirmationOnlyPromotes(st, key, now, k);
    }
  }

  lemma PassedIsWritten(scheme: SignatureScheme, st: State, d: MemoryDiff, caller: Option<Bytes>, now: nat)
    ensures ApplyDiff(scheme, st, d, caller, now).0 ==
      if Refusal(scheme, st, d, caller, now).None? then Written(st, d, caller, now) else st
  {
    hide Refusal, Committed, ApplyAll;
  }

  lemma {:induction false} RunsKeepTracked(scheme: SignatureScheme, st: State, steps: seq<Step>, j: nat)
    requires Tracked(st) && j <= |steps|
    ensures Tracked(After(scheme, st, steps, j))
  {
    hide Tracked, Next;
    if j > 0 {
      RunsKeepTracked(scheme, st, steps, j - 1);
      AfterStep(scheme, st, steps, j - 1);
      var e: EdgeKey :| true;
      StepKeepsTracked(scheme, After(scheme, st, steps, j - 1), steps[j - 1], e);
    }
  }

  /** Step `j` is the last to change the row under `k`. */
  ghost predicate LastWrittenAt(scheme: SignatureScheme, st: State, steps: seq<Step>, k: EdgeKey, j: nat) {
    && j < |steps| && !SameEdgeRow(After(scheme, st, steps, j), After(scheme, st, steps, j + 1), k)
    && forall m :: j < m <= |steps| ==> SameEdgeRow(After(scheme, st, steps, j + 1), After(scheme, st, steps, m), k)
  }

  ghost predicate SameInserter(st: State, st': State, k: EdgeKey) {
    (k in st.inserters <==> k in st'.inserters) && (k in st.inserters ==> st.inserters[k] == st'.inserters[k])
  }

  lemma {:induction false} InserterStays(scheme: SignatureScheme, st: State, steps: seq<Step>, k: EdgeKey, j: nat,
                                         m: nat)
    requires Tracked(st) && LastWrittenAt(scheme, st, steps, k, j) && j < m <= |steps|
    ensures SameInserter(After(scheme, st, steps, j + 1), After(scheme, st, steps, m), k)
  {
    hide Tracked, Next, After;
    if m > j + 1 {
      InserterStays(scheme, st, steps, k, j, m - 1);
      RunsKeepTracked(scheme, st, steps, m - 1);
      AfterStep(scheme, st, steps, m - 1);
      StepKeepsTracked(scheme, After(scheme, st, steps, m - 1), steps[m - 1], k);
    }
  }

  /** Over any run: a stored proposal on a stored node, last written by a merge of someone other
      than the node's author, is signed by that caller, current if it supersedes, and has that
      caller on record, exactly when its target was stored once that merge was done. */
  lemma ContestedRows(scheme: SignatureScheme, st: State, steps: seq<Step>, k: EdgeKey, j: nat)
    requires Tracked(st) && NeedsSecondParty(k.kind) && LastWrittenAt(scheme, st, steps, k, j)
    requires var end := Run(scheme, st, steps); k in end.edges && end.edges[k].quarantined
    ensures var end, step := Run(scheme, st, steps), steps[j];
      && step.Submit?
      && (step.caller != Some(k.to.author) ==>
            (Attributed(end, k, step.caller, step.now) <==> k.to in After(scheme, st, steps, j + 1).nodes))
  {
    hide Tracked, Run, Attributed, ApplyDiff, ConfirmEdge;
    var before, after := After(scheme, st, steps, j), After(scheme, st, steps, j + 1);
    assert steps[..|steps|] == steps;
    assert After(scheme, st, steps, |steps|) == Run(scheme, st, steps);
    RunsKeepTracked(scheme, st, steps, j);
    AfterStep(scheme, st, steps, j);
    TrackedMeans(before);
    match steps[j] {
      case Submit(d, caller, now) =>
        if caller != Some(k.to.author) {
          ContestingProposals(scheme, before, d, caller, now, k);
          InserterStays(scheme, st, steps, k, j, |steps|);
          AttributedSame(after, Run(scheme, st, steps), k, caller, now);
        }
      case Confirmation(key, now) =>
        ConfirmationOnlyPromotes(before, key, now, k);
    }
  }

  lemma TrackedMeans(st: State)
    requires Tracked(st)
    ensures Keyed(st) && InsertersKnown(st)
  {
  }

  lemma AttributedSame(st: State, st': State, k: EdgeKey, caller: Option<Bytes>, now: nat)
    requires k in st.edges && SameEdgeRow(st, st', k) && SameInserter(st, st', k)
    ensures Attributed(st, k, caller, now) <==> Attributed(st', k, caller, now)
  {
  }

  /** The other case, in two merges: a proposal on an id nobody knows, signed by anyone with any
      time, then the node's author brings the node. The store now holds a contesting proposal
      that the rule would have refused, with no inserter on record. */
  lemma LateTargetIsContested(scheme: SignatureScheme, st: State, e: Edge, n: MemoryNode, caller: Option<Bytes>,
                              now: nat, later: nat)
    requires Tracked(st) && e.Key() !in st.edges && e.to == n.Id() && n.Id() !in st.nodes
    requires NeedsSecondParty(e.kind) && e.quarantined && VerifyEdge(scheme, e).None? && VerifyNode(scheme, n).None?
    ensures var s1, s2 := Submit(MemoryDiff([], [e]), caller, now), Submit(MemoryDiff([n], []), Some(n.author), later);
      var end := Run(scheme, st, [s1, s2]);
      && e.Key() in end.edges && end.edges[e.Key()] == e && e.to in end.nodes && e.Key() !in end.inserters
  {
    hide ApplyDiff, VerifyEdge, VerifyNode;
    var s1, s2 := Submit(MemoryDiff([], [e]), caller, now), Submit(MemoryDiff([n], []), Some(n.author), later);
    UnknownTargetIsUnchecked(scheme, st, e, caller, now);
    var mid := Next(scheme, st, s1);
    OneNode(scheme, mid, n, Some(n.author), later);
    NewIsWritten(mid, n, later);
    assert [s1, s2][1..] == [s2] && [s2][1..] == [];
    assert Run(scheme, mid, [s2]) == Run(scheme, Next(scheme, mid, s2), []) == Next(scheme, mid, s2);
    assert Run(scheme, st, [s1, s2]) == Run(scheme, mid, [s2]);
  }

  lemma NewIsWritten(st: State, n: MemoryNode, now: nat)
    requires n.Id() !in st.nodes
    ensures PlanNode(st, n, Some(n.author), now) == WriteNode(n, false)
  {
  }
}
