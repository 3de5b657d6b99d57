/** The DAG store of crates/mem-store/src/lib.rs, without encryption at rest: nodes by
    id, edges by (from, to, kind), and the inserter records kept as meta rows. */
module Store {
  import opened Sorting
  import opened Core

  datatype State = State(
    nodes: map<ContentHash, MemoryNode>,
    edges: map<EdgeKey, Edge>,
    inserters: map<EdgeKey, Bytes>)

  datatype SupersessionError =
    NotSupersedes | Quarantined | SelfSupersede | MissingNode | PlaneViolation | Cycle

  // ---- reachability ----

  /** `p` walks along stored edges of one kind. */
  ghost predicate Walk(edges: map<EdgeKey, Edge>, kind: EdgeKind, p: seq<ContentHash>) {
    forall i :: 0 <= i < |p| - 1 ==> EdgeKey(p[i], p[i + 1], kind) in edges
  }

  ghost predicate WalkFromTo(edges: map<EdgeKey, Edge>, kind: EdgeKind, p: seq<ContentHash>, a: ContentHash,
                             b: ContentHash) {
    |p| >= 2 && p[0] == a && p[|p| - 1] == b && Walk(edges, kind, p)
  }

  /** One or more edges of `kind` lead from `a` to `b`. */
  ghost predicate Reaches(edges: map<EdgeKey, Edge>, kind: EdgeKind, a: ContentHash, b: ContentHash) {
    exists p :: WalkFromTo(edges, kind, p, a, b)
  }

  ghost predicate Closed(edges: map<EdgeKey, Edge>, kind: EdgeKind, s: set<ContentHash>) {
    forall k :: k in edges && k.kind == kind && k.from in s ==> k.to in s
  }

  lemma ExtendWalk(edges: map<EdgeKey, Edge>, kind: EdgeKind, a: ContentHash, b: ContentHash, c: ContentHash)
    requires a == b || Reaches(edges, kind, a, b)
    requires EdgeKey(b, c, kind) in edges
    ensures Reaches(edges, kind, a, c)
  {
    var p := if a == b then [a] else var q :| WalkFromTo(edges, kind, q, a, b); q;
    assert WalkFromTo(edges, kind, p + [c], a, c);
  }

  lemma {:induction false} WalkStaysIn(edges: map<EdgeKey, Edge>, kind: EdgeKind, s: set<ContentHash>,
                                       p: seq<ContentHash>, i: nat)
    requires Closed(edges, kind, s) && i < |p| && Walk(edges, kind, p) && p[0] in s
    ensures p[i] in s
  {
    if i > 0 {
      WalkStaysIn(edges, kind, s, p, i - 1);
      assert EdgeKey(p[i - 1], p[i - 1 + 1], kind) in edges;
    }
  }

  lemma ReachableStaysIn(edges: map<EdgeKey, Edge>, kind: EdgeKind, s: set<ContentHash>, a: ContentHash, b: ContentHash)
    requires Closed(edges, kind, s) && a in s && Reaches(edges, kind, a, b)
    ensures b in s
  {
    var p :| WalkFromTo(edges, kind, p, a, b);
    WalkStaysIn(edges, kind, s, p, |p| - 1);
  }

  // ---- the breadth-first search ----

  /** The targets of `cur` not seen yet. */
  function OutOf(edges: map<EdgeKey, Edge>, kind: EdgeKind, cur: ContentHash, seen: set<ContentHash>)
    : set<ContentHash>
  {
    set k | k in edges && k.kind == kind && k.from == cur && k.to !in seen :: k.to
  }

  ghost function Targets(edges: map<EdgeKey, Edge>): set<ContentHash> {
    set k | k in edges :: k.to
  }

  /** Everything seen is reachable, and whatever a finished node leads to has been seen. */
  ghost predicate Searching(edges: map<EdgeKey, Edge>, kind: EdgeKind, start: ContentHash,
                            seen: set<ContentHash>, queue: set<ContentHash>)
  {
    && start in seen && (forall x :: x in seen ==> x == start || Reaches(edges, kind, start, x))
    && (forall k :: k in edges && k.kind == kind && k.from in seen && k.from !in queue ==> k.to in seen)
  }

  lemma SearchStarts(edges: map<EdgeKey, Edge>, kind: EdgeKind, start: ContentHash)
    ensures Searching(edges, kind, start, {start}, {start})
  {
  }

  lemma SearchStep(edges: map<EdgeKey, Edge>, kind: EdgeKind, start: ContentHash,
                   seen: set<ContentHash>, queue: set<ContentHash>, cur: ContentHash)
    requires Searching(edges, kind, start, seen, queue) && cur in queue && queue <= seen
    ensures var newly := OutOf(edges, kind, cur, seen);
      && newly !! seen && newly <= Targets(edges)
      && Searching(edges, kind, start, seen + newly, queue - {cur} + newly)
  {
    hide Reaches;
    var newly := OutOf(edges, kind, cur, seen);
    forall x | x in newly ensures Reaches(edges, kind, start, x) {
      var k :| k in edges && k.kind == kind && k.from == cur && k.to == x;
      assert k == EdgeKey(cur, x, kind);
      ExtendWalk(edges, kind, start, cur, x);
    }
  }

  lemma SearchEnds(edges: map<EdgeKey, Edge>, kind: EdgeKind, start: ContentHash, seen: set<ContentHash>)
    requires Searching(edges, kind, start, seen, {})
    ensures forall x :: x in seen && x != start <==> x != start && Reaches(edges, kind, start, x)
  {
    hide Reaches;
    forall x | Reaches(edges, kind, start, x) ensures x in seen {
      ReachableStaysIn(edges, kind, seen, start, x);
    }
  }

  // ---- supersession ----

  datatype Applied = Applied(state: State, transitioned: bool) | Rejected(error: SupersessionError)

  /** The target's new state: its validity never ends before it began. */
  function Retire(target: MemoryNode, at: nat): MemoryNode {
    target.(status := Status.Superseded, validTo := Some(Max(at, target.validFrom)))
  }

  ghost function ApplySupersession(st: State, e: Edge): Applied {
    if e.kind != Supersedes then Rejected(NotSupersedes)
    else if e.quarantined then Rejected(Quarantined)
    else if e.from == e.to then Rejected(SelfSupersede)
    else if e.from !in st.nodes then Rejected(MissingNode)
    else if e.to !in st.nodes then Rejected(MissingNode)
    else if e.plane == Asserted && st.nodes[e.to].plane == Derived then Rejected(PlaneViolation)
    else if Reaches(st.edges, Supersedes, e.to, e.from) then Rejected(Cycle)
    else
      var target := st.nodes[e.to];
      var edges := st.edges[e.Key() := e];
      if target.status == Active then
        Applied(st.(edges := edges, nodes := st.nodes[e.to := Retire(target, e.provenance.at)]), true)
      else
        Applied(st.(edges := edges), false)
  }

  // ---- batches ----

  function PutNodes(m: map<ContentHash, MemoryNode>, ns: seq<MemoryNode>): map<ContentHash, MemoryNode> {
    if ns == [] then m
    else var n := ns[|ns| - 1]; PutNodes(m, ns[..|ns| - 1])[n.Id() := n]
  }

  /** A quarantined write over a stored load-bearing edge. */
  predicate Demotes(stored: map<EdgeKey, Edge>, e: Edge) {
    e.quarantined && e.Key() in stored && !stored[e.Key()].quarantined
  }

  function PutEdges(stored: map<EdgeKey, Edge>, es: seq<Edge>): map<EdgeKey, Edge> {
    if es == [] then stored
    else
      var e, m := es[|es| - 1], PutEdges(stored, es[..|es| - 1]);
      if Demotes(stored, e) then m else m[e.Key() := e]
  }

  // ---- confirmation ----

  datatype ConfirmOutcome = Promoted | AlreadyConfirmed | NotFound | Failed(error: SupersessionError)

  ghost function ConfirmEdge(st: State, key: EdgeKey, now: nat): (State, ConfirmOutcome) {
    if key !in st.edges then (st, NotFound)
    else if !st.edges[key].quarantined then (st, AlreadyConfirmed)
    else
      var edge := st.edges[key].(quarantined := false);
      if edge.kind == Supersedes then
        match ApplySupersession(st, edge.(provenance := edge.provenance.(at := now)))
        case Applied(st', _) => (st', Promoted)
        case Rejected(err) => (st, Failed(err))
      else
        (st.(edges := PutEdges(st.edges, [edge])), Promoted)
  }

  // ---- the store object ----

  class MemoryDagStore {
    var nodes: map<ContentHash, MemoryNode>
    var edges: map<EdgeKey, Edge>
    var inserters: map<EdgeKey, Bytes>

    ghost function Value(): State
      reads this
    {
      State(nodes, edges, inserters)
    }

    constructor ()
      ensures Value() == State(map[], map[], map[])
    {
      nodes, edges, inserters := map[], map[], map[];
    }

    /** Breadth-first search over the out-edges of one kind, excluding the start. */
    method ReachableVia(start: ContentHash, kind: EdgeKind) returns (result: set<ContentHash>)
      ensures forall x :: x in result <==> x != start && Reaches(edges, kind, start, x)
    {
      hide Reaches, Searching, OutOf;
      var seen, queue := {start}, {start};
      ghost var universe := {start} + Targets(edges);
      SearchStarts(edges, kind, start);
      while queue != {}
        invariant queue <= seen <= universe && Searching(edges, kind, start, seen, queue)
        decreases universe - (seen - queue)
      {
        var cur :| cur in queue;
        var newly := OutOf(edges, kind, cur, seen);
        SearchStep(edges, kind, start, seen, queue, cur);
        ghost var before := seen - queue;
        seen, queue := seen + newly, queue - {cur} + newly;
        assert seen - queue == before + {cur};
      }
      result := seen - {start};
      SearchEnds(edges, kind, start, seen);
    }

    method WouldCycleSupersedes(from: ContentHash, to: ContentHash) returns (cycle: bool)
      ensures cycle <==> from != to && Reaches(edges, Supersedes, to, from)
    {
      var reached := ReachableVia(to, Supersedes);
      cycle := from in reached;
    }

    method Supersede(e: Edge) returns (error: Option<SupersessionError>, transitioned: bool)
      modifies this
      ensures match ApplySupersession(old(Value()), e)
        case Applied(st, t) => Value() == st && error == None && transitioned == t
        case Rejected(err) => Value() == old(Value()) && error == Some(err) && !transitioned
    {
      error, transitioned := None, false;
      if e.kind != Supersedes { return Some(NotSupersedes), false; }
      if e.quarantined { return Some(Quarantined), false; }
      if e.from == e.to { return Some(SelfSupersede), false; }
      if e.from !in nodes { return Some(MissingNode), false; }
      if e.to !in nodes { return Some(MissingNode), false; }
      var target := nodes[e.to];
      if e.plane == Asserted && target.plane == Derived { return Some(PlaneViolation), false; }
      var cycle := WouldCycleSupersedes(e.from, e.to);
      if cycle { return Some(Cycle), false; }
      transitioned := target.status == Active;
      edges := edges[e.Key() := e];
      if transitioned {
        nodes := nodes[e.to := Retire(target, e.provenance.at)];
      }
    }

    /** One atomic batch; demotions are judged against the edges stored before it. */
    method Commit(ns: seq<MemoryNode>, es: seq<Edge>)
      modifies this
      ensures Value() == old(Value()).(nodes := PutNodes(old(nodes), ns), edges := PutEdges(old(edges), es))
    {
      var stored := edges;
      for i := 0 to |ns|
        invariant Value() == old(Value()).(nodes := PutNodes(old(nodes), ns[..i]))
      {
        assert ns[..i + 1][..i] == ns[..i];
        nodes := nodes[ns[i].Id() := ns[i]];
      }
      assert ns[..|ns|] == ns;
      for i := 0 to |es|
        invariant Value() == old(Value()).(nodes := PutNodes(old(nodes), ns), edges := PutEdges(stored, es[..i]))
      {
        assert es[..i + 1][..i] == es[..i];
        if !Demotes(stored, es[i]) {
          edges := edges[es[i].Key() := es[i]];
        }
      }
      assert es[..|es|] == es;
    }

    method Confirm(key: EdgeKey, now: nat) returns (outcome: ConfirmOutcome)
      modifies this
      ensures (Value(), outcome) == ConfirmEdge(old(Value()), key, now)
    {
      if key !in edges { return NotFound; }
      if !edges[key].quarantined { return AlreadyConfirmed; }
      var edge := edges[key].(quarantined := false);
      if edge.kind == Supersedes {
        var err, _ := Supersede(edge.(provenance := edge.provenance.(at := now)));
        outcome := if err.Some? then Failed(err.value) else Promoted;
      } else {
        Commit([], [edge]);
        outcome := Promoted;
      }
    }
  }
}
