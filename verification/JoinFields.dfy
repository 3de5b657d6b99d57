/** What the node merge keeps of each field, in terms of the values alone. */
module JoinFields {
  import opened Sorting
  import opened Core
  import opened Join

  // ---- status and end of validity ----

  /** Archived over Superseded over Active. */
  predicate Outranks(a: Status, b: Status) {
    (a == Status.Superseded && b == Active) || (a == Archived && b != Archived)
  }

  /** The earliest end stated on either side, if one is. */
  predicate EarliestOf(kept: Option<nat>, a: Option<nat>, b: Option<nat>) {
    match kept
    case None => a.None? && b.None?
    case Some(v) => (a == kept || b == kept) && (a.Some? ==> v <= a.value) && (b.Some? ==> v <= b.value)
  }

  /** The copy that ranks higher decides status and end of validity; between equal ones the first
      correction wins. */
  lemma MergedStanding(local: MemoryNode, remote: MemoryNode)
    ensures var m := Merge(local, remote);
      if Outranks(remote.status, local.status) then m.status == remote.status && m.validTo == remote.validTo
      else if Outranks(local.status, remote.status) then m.status == local.status && m.validTo == local.validTo
      else m.status == local.status == remote.status && EarliestOf(m.validTo, local.validTo, remote.validTo)
  {
    hide UnionAnchors, JoinConfidence, MinEmbedding, MinOptBytes;
  }

  /** The end is the earliest one stated by a copy of the given status. */
  ghost predicate EarliestEndOf(s: seq<MemoryNode>, status: Status, end: Option<nat>) {
    && (end.None? ==> forall k :: 0 <= k < |s| && s[k].status == status ==> s[k].validTo.None?)
    && (end.Some? ==>
          && (exists k :: 0 <= k < |s| && s[k].status == status && s[k].validTo == end)
          && (forall k :: 0 <= k < |s| && s[k].status == status && s[k].validTo.Some? ==>
                end.value <= s[k].validTo.value))
  }

  /** After any sequence of merges: the highest status any copy had, and the earliest end that a copy
      of that status states. */
  lemma {:induction false} FoldedStanding(s: seq<MemoryNode>)
    requires s != []
    ensures exists k :: 0 <= k < |s| && s[k].status == Fold(s).status
    ensures forall k :: 0 <= k < |s| ==> !Outranks(s[k].status, Fold(s).status)
    ensures EarliestEndOf(s, Fold(s).status, Fold(s).validTo)
  {
    hide Merge;
    assert s[0] in s;
    if |s| == 1 {
      assert s[0].status == Fold(s).status;
    } else {
      var init, x := s[..|s| - 1], s[|s| - 1];
      var f, m := Fold(init), Fold(s);
      FoldedStanding(init);
      MergedStanding(f, x);
      forall k | 0 <= k < |s| ensures !Outranks(s[k].status, m.status) {
        if k < |init| { assert s[k] == init[k]; }
      }
      OneMoreEnd(init, x, f, m);
    }
  }

  lemma OneMoreEnd(init: seq<MemoryNode>, x: MemoryNode, f: MemoryNode, m: MemoryNode)
    requires EarliestEndOf(init, f.status, f.validTo)
    requires exists k :: 0 <= k < |init| && init[k].status == f.status
    requires forall k :: 0 <= k < |init| ==> !Outranks(init[k].status, f.status)
    requires if Outranks(x.status, f.status) then m.status == x.status && m.validTo == x.validTo
             else if Outranks(f.status, x.status) then m.status == f.status && m.validTo == f.validTo
             else m.status == f.status == x.status && EarliestOf(m.validTo, f.validTo, x.validTo)
    ensures var s := init + [x];
      EarliestEndOf(s, m.status, m.validTo) && exists k :: 0 <= k < |s| && s[k].status == m.status
  {
    var s := init + [x];
    assert s[|init|] == x && forall k :: 0 <= k < |init| ==> s[k] == init[k];
    var k :| 0 <= k < |init| && init[k].status == f.status;
    assert s[k].status == f.status;
    if f.validTo.Some? {
      var j :| 0 <= j < |init| && init[j].status == f.status && init[j].validTo == f.validTo;
      assert s[j].validTo == f.validTo;
    }
  }

  // ---- trust ----

  /** The less trusted tier wins: inferred before asserted before confirmed before derived. */
  lemma MergedTrust(local: MemoryNode, remote: MemoryNode)
    ensures var a, b, m := local.trustTier, remote.trustTier, Merge(local, remote).trustTier;
      m == if a == InferredAdvisory || b == InferredAdvisory then InferredAdvisory
           else if a == AgentAsserted || b == AgentAsserted then AgentAsserted
           else if a == HumanConfirmed || b == HumanConfirmed then HumanConfirmed
           else DerivedDeterministic
  {
    hide UnionAnchors, JoinConfidence, MinEmbedding, MinOptBytes;
  }

  // ---- signature, embedding and times ----

  /** Whichever side has one; of two, the text that comes first. */
  ghost predicate FirstText(kept: Option<Bytes>, a: Option<Bytes>, b: Option<Bytes>) {
    match (a, b)
    case (None, x) => kept == x
    case (x, None) => kept == x
    case (Some(x), Some(y)) => kept.Some? && kept.value == if Precedes(y, x) then y else x
  }

  /** By model name, then by the bits of the data. */
  ghost predicate VectorPrecedes(a: VersionedVector, b: VersionedVector) {
    Precedes(a.model, b.model) || (a.model == b.model && Precedes(a.data, b.data))
  }

  ghost predicate FirstVector(kept: Option<VersionedVector>, a: Option<VersionedVector>, b: Option<VersionedVector>) {
    match (a, b)
    case (None, x) => kept == x
    case (x, None) => kept == x
    case (Some(x), Some(y)) => kept.Some? && kept.value == if VectorPrecedes(y, x) then y else x
  }

  lemma PrecedesIsStrict(a: seq<nat>, b: seq<nat>)
    ensures a != b ==> (LexLe(a, b) <==> !Precedes(b, a))
    ensures !Precedes(a, a)
  {
    LexMeans(a, b);
    LexMeans(b, a);
    LexTotal(a, b);
  }

  lemma MergedSignature(local: MemoryNode, remote: MemoryNode)
    ensures FirstText(Merge(local, remote).signature, local.signature, remote.signature)
  {
    hide UnionAnchors, JoinConfidence, MinEmbedding, Precedes;
    if local.signature.Some? && remote.signature.Some? {
      PrecedesIsStrict(local.signature.value, remote.signature.value);
      PrecedesIsStrict(remote.signature.value, local.signature.value);
    }
  }

  lemma MergedEmbedding(local: MemoryNode, remote: MemoryNode)
    ensures FirstVector(Merge(local, remote).embedding, local.embedding, remote.embedding)
  {
    hide UnionAnchors, JoinConfidence, MinOptBytes, Precedes, LexLe;
    if local.embedding.Some? && remote.embedding.Some? {
      var a, b := local.embedding.value, remote.embedding.value;
      PrecedesIsStrict(a.model, b.model);
      PrecedesIsStrict(b.model, a.model);
      PrecedesIsStrict(a.data, b.data);
      PrecedesIsStrict(b.data, a.data);
      SameIsLe(a.data);
    }
  }

  lemma SameIsLe(a: seq<nat>)
    ensures LexLe(a, a)
  {
    LexTotal(a, a);
  }

  /** The earlier of the times, and the identity fields as they were. */
  lemma MergedTimes(local: MemoryNode, remote: MemoryNode)
    ensures var m := Merge(local, remote);
      && m.validFrom <= local.validFrom && m.validFrom <= remote.validFrom
      && (m.validFrom == local.validFrom || m.validFrom == remote.validFrom)
      && m.observedAt <= local.observedAt && m.observedAt <= remote.observedAt
      && (m.observedAt == local.observedAt || m.observedAt == remote.observedAt)
      && m.Id() == local.Id()
  {
    hide UnionAnchors, JoinConfidence, MinEmbedding, MinOptBytes;
  }

  // ---- confidence ----

  /** Evidence for and against, dimension by dimension, a missing one holding none. */
  lemma MergedConfidence(local: MemoryNode, remote: MemoryNode, i: nat)
    ensures var a, b, m := local.confidence, remote.confidence, Merge(local, remote).confidence;
      && |m| == (if |a| >= |b| then |a| else |b|)
      && (i < |m| ==>
            var x, y := if i < |a| then a[i] else Neither, if i < |b| then b[i] else Neither;
            m[i] == if x == y then x
                    else if x == Neither then y
                    else if y == Neither then x
                    else Both)
  {
    hide UnionAnchors, MinEmbedding, MinOptBytes;
  }

  // ---- anchors ----

  ghost predicate SymbolPrecedes(a: Option<Bytes>, b: Option<Bytes>) {
    b.Some? && (a.None? || Precedes(a.value, b.value))
  }

  /** By repository, path, symbol with none first, first line and last line. */
  ghost predicate AnchorPrecedes(a: CodeAnchor, b: CodeAnchor) {
    || Precedes(a.repo, b.repo)
    || (a.repo == b.repo &&
        (|| Precedes(a.path, b.path)
         || (a.path == b.path &&
             (|| SymbolPrecedes(a.symbol, b.symbol)
              || (a.symbol == b.symbol
                  && (a.lineStart < b.lineStart || (a.lineStart == b.lineStart && a.lineEnd < b.lineEnd)))))))
  }

  lemma AnchorOrder(a: CodeAnchor, b: CodeAnchor)
    ensures AnchorLe(a, b) <==> a == b || AnchorPrecedes(a, b)
  {
    hide Precedes, LexLe;
    PrecedesMeans(a.repo, b.repo);
    PrecedesMeans(a.path, b.path);
    if a.symbol.Some? && b.symbol.Some? { PrecedesMeans(a.symbol.value, b.symbol.value); }
  }

  lemma PrecedesMeans(a: seq<nat>, b: seq<nat>)
    ensures Precedes(a, b) <==> a != b && LexLe(a, b)
  {
    LexMeans(a, b);
    PrecedesIsStrict(a, a);
  }

  /** The anchors of both sides, each once, in that order. */
  lemma MergedAnchors(local: MemoryNode, remote: MemoryNode)
    ensures var m := Merge(local, remote).anchors;
      && (forall x :: x in m <==> x in local.anchors || x in remote.anchors)
      && forall i, j :: 0 <= i < j < |m| ==> AnchorPrecedes(m[i], m[j])
  {
    hide JoinConfidence, MinEmbedding, MinOptBytes, UnionAnchors, AnchorPrecedes, AnchorLe;
    var m := Merge(local, remote).anchors;
    UnionSpec(local.anchors, remote.anchors);
    forall i, j | 0 <= i < j < |m| ensures AnchorPrecedes(m[i], m[j]) { AnchorOrder(m[i], m[j]); }
  }
}
