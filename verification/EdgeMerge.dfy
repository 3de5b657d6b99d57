/** The edge merge of the replica sync (crates/mem-sync/src/lib.rs). */
module EdgeMerge {
  import opened Sorting
  import opened Core
  import opened Join

  // ---- one merge ----

  function MethodRank(m: EdgeMethod): nat {
    match m case Trailer => 0 case Ingest => 1 case Nlp => 2 case Analogy => 3 case Manual => 4
  }

  function OrEmpty(o: Option<Bytes>): Bytes { if o.Some? then o.value else [] }

  predicate BytesLess(a: Bytes, b: Bytes) { a != b && LexLe(a, b) }

  /** The tuple order on (trust, plane, method, asserter, time, evidence, signature). */
  predicate AdvisoryLess(a: Edge, b: Edge) {
    var p, q := a.provenance, b.provenance;
    var s, t := TrustConservatism(a.trustTier), TrustConservatism(b.trustTier);
    if s != t then s < t
    else if a.plane != b.plane then a.plane == Derived
    else if MethodRank(p.via) != MethodRank(q.via) then MethodRank(p.via) < MethodRank(q.via)
    else if p.asserter != q.asserter then BytesLess(p.asserter, q.asserter)
    else if p.at != q.at then p.at < q.at
    else if OrEmpty(p.evidence) != OrEmpty(q.evidence) then BytesLess(OrEmpty(p.evidence), OrEmpty(q.evidence))
    else BytesLess(OrEmpty(a.signature), OrEmpty(b.signature))
  }

  function MergeEdge(local: Edge, remote: Edge): Edge {
    var joined := local.(quarantined := local.quarantined && remote.quarantined,
                         confidence := JoinConfidence(local.confidence, remote.confidence));
    if AdvisoryLess(remote, local) then
      joined.(trustTier := remote.trustTier, plane := remote.plane,
              provenance := remote.provenance, signature := remote.signature)
    else joined
  }

  /** `a` comes before `b` in the list. */
  ghost predicate Before<T>(order: seq<T>, a: T, b: T) {
    exists i, j :: 0 <= i < j < |order| && order[i] == a && order[j] == b
  }

  ghost predicate TextFirst(a: Option<Bytes>, b: Option<Bytes>) {
    Precedes(if a.Some? then a.value else [], if b.Some? then b.value else [])
  }

  /** The sense of the comparison: the less trusted tier first, then the derived plane, then the
      method in order of declaration, then asserter, time, evidence and signature, an absent text
      counting as empty. */
  lemma AdvisoryMeans(a: Edge, b: Edge)
    ensures var p, q := a.provenance, b.provenance;
      AdvisoryLess(a, b) <==>
      if a.trustTier != b.trustTier then
        Before([InferredAdvisory, AgentAsserted, HumanConfirmed, DerivedDeterministic], a.trustTier, b.trustTier)
      else if a.plane != b.plane then a.plane == Derived
      else if p.via != q.via then Before([Trailer, Ingest, Nlp, Analogy, Manual], p.via, q.via)
      else if p.asserter != q.asserter then Precedes(p.asserter, q.asserter)
      else if p.at != q.at then p.at < q.at
      else TextFirst(p.evidence, q.evidence)
           || (!TextFirst(q.evidence, p.evidence) && TextFirst(a.signature, b.signature))
  {
    var p, q := a.provenance, b.provenance;
    var tiers := [InferredAdvisory, AgentAsserted, HumanConfirmed, DerivedDeterministic];
    var methods := [Trailer, Ingest, Nlp, Analogy, Manual];
    assert tiers[TrustConservatism(a.trustTier)] == a.trustTier && tiers[TrustConservatism(b.trustTier)] == b.trustTier;
    assert methods[MethodRank(p.via)] == p.via && methods[MethodRank(q.via)] == q.via;
    LessMeans(p.asserter, q.asserter);
    LessMeans(OrEmpty(p.evidence), OrEmpty(q.evidence));
    LessMeans(OrEmpty(q.evidence), OrEmpty(p.evidence));
    LessMeans(OrEmpty(a.signature), OrEmpty(b.signature));
    LexTotal(OrEmpty(p.evidence), OrEmpty(q.evidence));
  }

  lemma LessMeans(a: Bytes, b: Bytes)
    ensures BytesLess(a, b) <==> Precedes(a, b)
  {
    LexMeans(a, b);
  }

  /** What a merged edge holds: the ends and kind of the local one, quarantined only if both are,
      the evidence of both, and the advisory fields of one side, the remote's only if they come
      first. */
  lemma MergedEdge(local: Edge, remote: Edge, i: nat)
    ensures var m := MergeEdge(local, remote);
      var a, b := local.confidence, remote.confidence;
      var from := if AdvisoryLess(remote, local) then remote else local;
      && m.Key() == local.Key() && (m.quarantined <==> local.quarantined && remote.quarantined)
      && m.trustTier == from.trustTier && m.plane == from.plane && m.provenance == from.provenance
      && m.signature == from.signature
      && |m.confidence| == (if |a| >= |b| then |a| else |b|)
      && (i < |m.confidence| ==>
            var x, y := if i < |a| then a[i] else Neither, if i < |b| then b[i] else Neither;
            m.confidence[i] == if x == y || y == Neither then x else if x == Neither then y else Both)
  {
    hide AdvisoryLess;
  }

  /** Equal in everything the merge compares: an absent text counts as an empty one. */
  predicate AdvisoryTies(a: Edge, b: Edge) {
    var p, q := a.provenance, b.provenance;
    && a.trustTier == b.trustTier && a.plane == b.plane && p.via == q.via && p.asserter == q.asserter && p.at == q.at
    && OrEmpty(p.evidence) == OrEmpty(q.evidence) && OrEmpty(a.signature) == OrEmpty(b.signature)
  }

  lemma AdvisoryTrichotomy(a: Edge, b: Edge)
    ensures AdvisoryTies(a, b) <==> !AdvisoryLess(a, b) && !AdvisoryLess(b, a)
    ensures !(AdvisoryLess(a, b) && AdvisoryLess(b, a))
  {
    LexIsTotalOrder();
  }

  /** The edge merge is meant to be commutative. It is, exactly unless two edges tie although one
      leaves out an evidence or signature that the other carries as an empty text: then each side
      keeps its own. */
  lemma EdgeMergeCommutes(a: Edge, b: Edge)
    requires a.Key() == b.Key()
    ensures MergeEdge(a, b) == MergeEdge(b, a) <==>
      !AdvisoryTies(a, b) || (a.provenance.evidence == b.provenance.evidence && a.signature == b.signature)
  {
    hide AdvisoryLess, JoinConfidence;
    ConfidenceIsJoin(a.confidence, b.confidence, []);
    AdvisoryTrichotomy(a, b);
  }

  /** The failing case exists for every edge without evidence. */
  lemma EdgeMergeKeepsSides(a: Edge)
    requires a.provenance.evidence.None?
    ensures var b := a.(provenance := a.provenance.(evidence := Some([])));
      MergeEdge(a, b) != MergeEdge(b, a)
  {
    EdgeMergeCommutes(a, a.(provenance := a.provenance.(evidence := Some([]))));
  }

  // ---- the order behind it ----

  /** The fields of an edge that a merge takes from one side as a whole. */
  predicate SameAdvisory(a: Edge, b: Edge) {
    a.trustTier == b.trustTier && a.plane == b.plane && a.provenance == b.provenance && a.signature == b.signature
  }

  lemma AdvisoryOrder(a: Edge, b: Edge, c: Edge)
    ensures !AdvisoryLess(a, a)
    ensures AdvisoryLess(a, b) ==> !AdvisoryLess(b, a)
    ensures AdvisoryLess(a, b) && !AdvisoryLess(c, b) ==> !AdvisoryLess(c, a)
  {
    LexIsTotalOrder();
  }

  lemma MergeEdgeAbsorbs(x: Edge, e: Edge)
    ensures MergeEdge(e, e) == e
    ensures MergeEdge(MergeEdge(x, e), e) == MergeEdge(x, e)
  {
    ConfidenceIsJoin(e.confidence, e.confidence, []);
    ConfidenceIsJoin(x.confidence, e.confidence, e.confidence);
    AdvisoryOrder(e, e, e);
    AdvisoryOrder(e, x, e);
    AdvisorySame(MergeEdge(x, e), if AdvisoryLess(e, x) then e else x, e);
  }

  /** The comparison looks only at the advisory group. */
  lemma AdvisorySame(a: Edge, b: Edge, e: Edge)
    requires a.trustTier == b.trustTier && a.plane == b.plane && a.provenance == b.provenance
    requires a.signature == b.signature
    ensures AdvisoryLess(a, e) == AdvisoryLess(b, e) && AdvisoryLess(e, a) == AdvisoryLess(e, b)
  {
    hide BytesLess;
  }

  lemma MergeEdgeKeepsAbsorbing(x: Edge, m: Edge, e: Edge)
    requires MergeEdge(x, e) == x
    ensures MergeEdge(MergeEdge(x, m), e) == MergeEdge(x, m)
  {
    hide JoinConfidence, AdvisoryLess;
    ConfidenceIsJoin(x.confidence, m.confidence, e.confidence);
    ConfidenceIsJoin(x.confidence, e.confidence, m.confidence);
    ConfidenceIsJoin(m.confidence, e.confidence, []);
    AdvisoryOrder(m, x, e);
    AdvisorySame(MergeEdge(x, m), if AdvisoryLess(m, x) then m else x, e);
    AdvisorySame(MergeEdge(x, e), if AdvisoryLess(e, x) then e else x, x);
    AdvisoryOrder(e, x, x);
  }

  lemma AdvisoryChain(a: Edge, b: Edge, c: Edge)
    ensures AdvisoryLess(a, b) && AdvisoryLess(b, c) ==> AdvisoryLess(a, c)
  {
    LexIsTotalOrder();
  }

  /** What is no earlier than a later edge is later. */
  lemma AdvisoryWeak(a: Edge, b: Edge, c: Edge)
    ensures AdvisoryLess(a, b) && !AdvisoryLess(c, b) ==> AdvisoryLess(a, c)
  {
    LexIsTotalOrder();
  }

  lemma TiesAreSame(a: Edge, b: Edge)
    requires AdvisoryTies(a, b)
    ensures SameAdvisory(a, b) <==> a.provenance.evidence == b.provenance.evidence && a.signature == b.signature
  {
  }

  lemma EdgeMergeAssociates(a: Edge, b: Edge, c: Edge)
    ensures MergeEdge(MergeEdge(a, b), c) == MergeEdge(a, MergeEdge(b, c))
  {
    hide AdvisoryLess, JoinConfidence;
    ConfidenceIsJoin(a.confidence, b.confidence, c.confidence);
    AdvisorySame(MergeEdge(a, b), if AdvisoryLess(b, a) then b else a, c);
    AdvisorySame(MergeEdge(b, c), if AdvisoryLess(c, b) then c else b, a);
    AdvisoryChain(c, b, a);
    AdvisoryWeak(b, a, c);
    AdvisoryWeak(c, a, b);
    AdvisoryWeak(c, b, a);
  }

  // ---- sequences of merges ----

  function FoldEdges(s: seq<Edge>): Edge
    requires s != []
  {
    if |s| == 1 then s[0] else MergeEdge(FoldEdges(s[..|s| - 1]), s[|s| - 1])
  }

  /** No edge of `s` comes before `x` in the merge's order. */
  ghost predicate Least(s: seq<Edge>, x: Edge) {
    forall y :: y in s ==> !AdvisoryLess(y, x)
  }

  ghost predicate FirstLeast(s: seq<Edge>, i: int) {
    0 <= i < |s| && Least(s, s[i]) && forall j :: 0 <= j < i ==> !Least(s, s[j])
  }

  /** A sequence of merges keeps the advisory fields of its first least copy, and the quarantine
      only if every copy has it. */
  lemma {:induction false} FoldKeepsFirstLeast(s: seq<Edge>) returns (i: nat)
    requires s != []
    ensures FirstLeast(s, i) && SameAdvisory(FoldEdges(s), s[i])
    ensures FoldEdges(s).quarantined <==> forall j :: 0 <= j < |s| ==> s[j].quarantined
  {
    hide AdvisoryLess, JoinConfidence;
    if |s| == 1 {
      i := 0;
      AdvisoryOrder(s[0], s[0], s[0]);
    } else {
      var init, x := s[..|s| - 1], s[|s| - 1];
      i := FoldKeepsFirstLeast(init);
      var f := FoldEdges(init);
      AdvisorySame(f, init[i], x);
      assert s == init + [x];
      if AdvisoryLess(x, f) {
        LastIsLeast(init, i, x);
        i := |s| - 1;
      } else {
        FirstStaysLeast(init, i, x);
      }
    }
  }

  lemma LastIsLeast(init: seq<Edge>, i: nat, x: Edge)
    requires FirstLeast(init, i) && AdvisoryLess(x, init[i])
    ensures FirstLeast(init + [x], |init|)
  {
    hide AdvisoryLess;
    var s := init + [x];
    AdvisoryOrder(x, x, x);
    forall y | y in s ensures !AdvisoryLess(y, x) { AdvisoryOrder(x, init[i], y); }
    forall j | 0 <= j < |init| ensures !Least(s, s[j]) {
      assert init[j] in init;
      AdvisoryWeak(x, init[i], init[j]);
      assert x in s;
    }
  }

  lemma FirstStaysLeast(init: seq<Edge>, i: nat, x: Edge)
    requires FirstLeast(init, i) && !AdvisoryLess(x, init[i])
    ensures FirstLeast(init + [x], i)
  {
    hide AdvisoryLess;
    var s := init + [x];
    forall j | 0 <= j < i ensures !Least(s, s[j]) {
      var y :| y in init && AdvisoryLess(y, init[j]);
      assert y in s;
    }
  }

  // ---- confidence does not depend on the order ----

  ghost predicate ConfidenceBelow(a: seq<Belnap>, b: seq<Belnap>) { JoinConfidence(a, b) == b }

  lemma {:induction false} FoldAboveConfidence(s: seq<Edge>, k: nat)
    requires k < |s|
    ensures ConfidenceBelow(s[k].confidence, FoldEdges(s).confidence)
  {
    hide AdvisoryLess, JoinConfidence;
    ConfidenceIsJoin(s[k].confidence, s[k].confidence, []);
    if |s| > 1 {
      var f, x := FoldEdges(s[..|s| - 1]).confidence, s[|s| - 1].confidence;
      ConfidenceIsJoin(f, x, []);
      if k < |s| - 1 {
        FoldAboveConfidence(s[..|s| - 1], k);
        ConfidenceIsJoin(s[k].confidence, f, x);
      } else {
        ConfidenceIsJoin(x, x, f);
      }
    }
  }

  lemma {:induction false} FoldBelowConfidence(s: seq<Edge>, u: seq<Belnap>)
    requires s != [] && forall i :: 0 <= i < |s| ==> ConfidenceBelow(s[i].confidence, u)
    ensures ConfidenceBelow(FoldEdges(s).confidence, u)
  {
    hide AdvisoryLess, JoinConfidence;
    if |s| > 1 {
      FoldBelowConfidence(s[..|s| - 1], u);
      ConfidenceIsJoin(FoldEdges(s[..|s| - 1]).confidence, s[|s| - 1].confidence, u);
    }
  }

  lemma FoldedConfidence(s: seq<Edge>, t: seq<Edge>)
    requires s != [] && t != [] && forall e :: e in s <==> e in t
    ensures FoldEdges(s).confidence == FoldEdges(t).confidence
  {
    hide FoldEdges, JoinConfidence;
    forall i | 0 <= i < |s| ensures ConfidenceBelow(s[i].confidence, FoldEdges(t).confidence) {
      assert s[i] in t;
      var k :| 0 <= k < |t| && t[k] == s[i];
      FoldAboveConfidence(t, k);
    }
    forall i | 0 <= i < |t| ensures ConfidenceBelow(t[i].confidence, FoldEdges(s).confidence) {
      assert t[i] in s;
      var k :| 0 <= k < |s| && s[k] == t[i];
      FoldAboveConfidence(s, k);
    }
    FoldBelowConfidence(s, FoldEdges(t).confidence);
    FoldBelowConfidence(t, FoldEdges(s).confidence);
    ConfidenceIsJoin(FoldEdges(s).confidence, FoldEdges(t).confidence, []);
  }

  // ---- convergence ----

  /** Copies of one edge: the same ones in both, in any order and with any repetition. */
  ghost predicate SameCopies(s: seq<Edge>, t: seq<Edge>, k: EdgeKey) {
    && s != [] && t != [] && (forall e :: e in s <==> e in t) && (forall e :: e in s ==> e.Key() == k)
  }

  lemma {:induction false} FoldKeepsKey(s: seq<Edge>)
    requires s != []
    ensures FoldEdges(s).Key() == s[0].Key()
  {
    hide AdvisoryLess, JoinConfidence;
    if |s| > 1 { FoldKeepsKey(s[..|s| - 1]); }
  }

  /** Two sequences of merges over the same copies always agree on quarantine and confidence and
      tie in everything else; they end in the very same edge exactly when their first least
      copies carry the same evidence and signature, absent ones told from empty ones. */
  lemma EdgesConverge(s: seq<Edge>, t: seq<Edge>, k: EdgeKey) returns (i: nat, j: nat)
    requires SameCopies(s, t, k)
    ensures FirstLeast(s, i) && FirstLeast(t, j) && AdvisoryTies(s[i], t[j])
    ensures SameAdvisory(FoldEdges(s), s[i]) && SameAdvisory(FoldEdges(t), t[j])
    ensures FoldEdges(s).quarantined == FoldEdges(t).quarantined && FoldEdges(s).confidence == FoldEdges(t).confidence
    ensures FoldEdges(s) == FoldEdges(t) <==>
      s[i].provenance.evidence == t[j].provenance.evidence && s[i].signature == t[j].signature
  {
    hide AdvisoryLess, FoldEdges;
    i := FoldKeepsFirstLeast(s);
    j := FoldKeepsFirstLeast(t);
    assert s[i] in t && t[j] in s && s[0] in s && t[0] in t;
    AdvisoryTrichotomy(s[i], t[j]);
    TiesAreSame(s[i], t[j]);
    FoldedConfidence(s, t);
    FoldKeepsKey(s);
    FoldKeepsKey(t);
    assert (forall x :: 0 <= x < |s| ==> s[x].quarantined) <==> (forall x :: 0 <= x < |t| ==> t[x].quarantined) by {
      assert (forall x :: 0 <= x < |s| ==> s[x].quarantined) <==> (forall e :: e in s ==> e.quarantined);
      assert (forall x :: 0 <= x < |t| ==> t[x].quarantined) <==> (forall e :: e in t ==> e.quarantined);
    }
  }

  /** Order and repetition do not matter exactly when no two least copies differ in an evidence or
      signature that one leaves out and the other has empty. */
  lemma EveryOrderConverges(s: seq<Edge>, k: EdgeKey)
    requires SameCopies(s, s, k)
    ensures (forall t :: SameCopies(s, t, k) ==> FoldEdges(t) == FoldEdges(s)) <==>
      forall x, y :: x in s && y in s && Least(s, x) && Least(s, y) ==>
        x.provenance.evidence == y.provenance.evidence && x.signature == y.signature
  {
    hide AdvisoryLess, FoldEdges, Least;
    if forall x, y :: x in s && y in s && Least(s, x) && Least(s, y) ==>
        x.provenance.evidence == y.provenance.evidence && x.signature == y.signature {
      forall t | SameCopies(s, t, k) ensures FoldEdges(t) == FoldEdges(s) {
        var i, j := EdgesConverge(s, t, k);
        LeastInBoth(s, t, t[j]);
        assert s[i] in s && t[j] in s;
      }
    }
    if forall t :: SameCopies(s, t, k) ==> FoldEdges(t) == FoldEdges(s) {
      forall x, y | x in s && y in s && Least(s, x) && Least(s, y)
        ensures x.provenance.evidence == y.provenance.evidence && x.signature == y.signature
      {
        LeastFirst(s, x, k);
        LeastFirst(s, y, k);
      }
    }
  }

  lemma LeastInBoth(s: seq<Edge>, t: seq<Edge>, x: Edge)
    requires forall e :: e in s <==> e in t
    ensures Least(s, x) <==> Least(t, x)
  {
    hide AdvisoryLess;
  }

  /** A least copy merged first decides. */
  lemma LeastFirst(s: seq<Edge>, x: Edge, k: EdgeKey)
    requires SameCopies(s, s, k) && x in s && Least(s, x)
    ensures SameCopies(s, [x] + s, k) && SameAdvisory(FoldEdges([x] + s), x)
  {
    hide AdvisoryLess, FoldEdges;
    var t := [x] + s;
    LeastInBoth(s, t, x);
    var i := FoldKeepsFirstLeast(t);
    assert t[0] == x;
  }
}
