/** The order-independent join of a node's advisory fields
    (crates/mem-assert/src/join.rs) and its convergence. */
module Join {
  import opened Sorting
  import opened Core

  // ---- field rules ----

  function StatusRank(s: Status): nat {
    match s case Active => 0 case Superseded => 1 case Archived => 2
  }

  /** Smaller is less trusted. */
  function TrustConservatism(t: TrustTier): nat {
    match t
    case InferredAdvisory => 0
    case AgentAsserted => 1
    case HumanConfirmed => 2
    case DerivedDeterministic => 3
  }

  function LessTrusted(a: TrustTier, b: TrustTier): TrustTier {
    if TrustConservatism(a) <= TrustConservatism(b) then a else b
  }

  predicate EmbeddingLe(a: VersionedVector, b: VersionedVector) {
    if a.model != b.model then LexLe(a.model, b.model) else LexLe(a.data, b.data)
  }

  function MinEmbedding(a: Option<VersionedVector>, b: Option<VersionedVector>): Option<VersionedVector> {
    MinOption(EmbeddingLe, a, b)
  }

  function MinOptBytes(a: Option<Bytes>, b: Option<Bytes>): Option<Bytes> {
    MinOption(LexLe, a, b)
  }

  /** The end-of-validity kept between copies of the same status: the earliest stated one. */
  function EarliestEnd(a: Option<nat>, b: Option<nat>): Option<nat> {
    match (a, b)
    case (Some(x), Some(y)) => Some(Min(x, y))
    case (Some(_), None) => a
    case (None, _) => b
  }

  // ---- confidence ----

  function At(c: seq<Belnap>, i: nat): Belnap {
    if i < |c| then c[i] else Neither
  }

  function JoinConfidence(a: seq<Belnap>, b: seq<Belnap>): seq<Belnap> {
    seq(if |a| <= |b| then |b| else |a|, i requires 0 <= i => At(a, i).Join(At(b, i)))
  }

  /** Positions of `joined` that are a contradiction while `before` had none there. */
  function CountNewBoth(joined: seq<Belnap>, before: seq<Belnap>): nat {
    if joined == [] then 0
    else
      var last := |joined| - 1;
      CountNewBoth(joined[..last], before) +
      if joined[last] == Both && At(before, last) != Both then 1 else 0
  }

  // ---- anchors ----

  predicate OptionLe(a: Option<Bytes>, b: Option<Bytes>) {
    a.None? || (b.Some? && LexLe(a.value, b.value))
  }

  /** The tuple order on (repo, path, symbol, line_start, line_end). */
  predicate AnchorLe(a: CodeAnchor, b: CodeAnchor) {
    if a.repo != b.repo then LexLe(a.repo, b.repo)
    else if a.path != b.path then LexLe(a.path, b.path)
    else if a.symbol != b.symbol then OptionLe(a.symbol, b.symbol)
    else if a.lineStart != b.lineStart then a.lineStart <= b.lineStart
    else a.lineEnd <= b.lineEnd
  }

  function Dedup(s: seq<CodeAnchor>): seq<CodeAnchor> {
    if |s| <= 1 then s
    else if s[0] == s[1] then Dedup(s[1..])
    else [s[0]] + Dedup(s[1..])
  }

  function UnionAnchors(a: seq<CodeAnchor>, b: seq<CodeAnchor>): seq<CodeAnchor> {
    Dedup(Sort(AnchorLe, a + b))
  }

  /** Sorted by the anchor key and free of duplicates: the shape the union produces. */
  ghost predicate Canonical(s: seq<CodeAnchor>) {
    Sorted(AnchorLe, s) && forall i, j :: 0 <= i < j < |s| ==> s[i] != s[j]
  }

  // ---- the merge ----

  datatype Merged = Merged(node: MemoryNode, changed: bool, contradictions: nat)

  function MergeNode(local: MemoryNode, remote: MemoryNode): Merged {
    var joined := JoinConfidence(local.confidence, remote.confidence);
    var status, validTo :=
      if StatusRank(remote.status) > StatusRank(local.status) then remote.status else local.status,
      if StatusRank(remote.status) > StatusRank(local.status) then remote.validTo
      else if remote.status == local.status then EarliestEnd(local.validTo, remote.validTo)
      else local.validTo;
    var node := local.(
      confidence := joined,
      status := status,
      validTo := validTo,
      trustTier := LessTrusted(local.trustTier, remote.trustTier),
      embedding := MinEmbedding(local.embedding, remote.embedding),
      signature := MinOptBytes(local.signature, remote.signature),
      anchors := UnionAnchors(local.anchors, remote.anchors),
      validFrom := Min(local.validFrom, remote.validFrom),
      observedAt := Min(local.observedAt, remote.observedAt));
    Merged(node, node != local, CountNewBoth(joined, local.confidence))
  }

  /** The merged node alone. */
  function Merge(local: MemoryNode, remote: MemoryNode): MemoryNode {
    MergeNode(local, remote).node
  }

  // ---- the orders are total ----

  lemma EmbeddingIsTotalOrder()
    ensures TotalOrder(EmbeddingLe)
  {
    LexIsTotalOrder();
  }

  lemma OptionTotal(a: Option<Bytes>, b: Option<Bytes>)
    ensures OptionLe(a, b) || OptionLe(b, a)
    ensures OptionLe(a, b) && OptionLe(b, a) ==> a == b
  {
    LexIsTotalOrder();
  }

  lemma OptionTransitive(a: Option<Bytes>, b: Option<Bytes>, c: Option<Bytes>)
    requires OptionLe(a, b) && OptionLe(b, c)
    ensures OptionLe(a, c)
  {
    LexIsTotalOrder();
  }

  lemma AnchorTotal(a: CodeAnchor, b: CodeAnchor)
    ensures AnchorLe(a, b) || AnchorLe(b, a)
    ensures AnchorLe(a, b) && AnchorLe(b, a) ==> a == b
  {
    LexTotal(a.repo, b.repo);
    LexTotal(a.path, b.path);
    OptionTotal(a.symbol, b.symbol);
  }

  lemma AnchorTransitive(a: CodeAnchor, b: CodeAnchor, c: CodeAnchor)
    requires AnchorLe(a, b) && AnchorLe(b, c)
    ensures AnchorLe(a, c)
  {
    if LexLe(a.repo, b.repo) && LexLe(b.repo, c.repo) { LexTransitive(a.repo, b.repo, c.repo); }
    if LexLe(a.path, b.path) && LexLe(b.path, c.path) { LexTransitive(a.path, b.path, c.path); }
    if OptionLe(a.symbol, b.symbol) && OptionLe(b.symbol, c.symbol) {
      OptionTransitive(a.symbol, b.symbol, c.symbol);
    }
    LexTotal(a.repo, b.repo);
    LexTotal(a.path, b.path);
    OptionTotal(a.symbol, b.symbol);
  }

  lemma AnchorIsTotalOrder()
    ensures TotalOrder(AnchorLe)
  {
    forall a: CodeAnchor, b: CodeAnchor { AnchorTotal(a, b); }
    forall a: CodeAnchor, b: CodeAnchor, c: CodeAnchor | AnchorLe(a, b) && AnchorLe(b, c) {
      AnchorTransitive(a, b, c);
    }
  }

  // ---- the anchor union is the canonical listing of the set union ----

  lemma {:induction false} DedupSpec(s: seq<CodeAnchor>)
    requires Sorted(AnchorLe, s)
    ensures Canonical(Dedup(s))
    ensures forall x :: x in Dedup(s) <==> x in s
    ensures s != [] ==> Dedup(s) != [] && Dedup(s)[0] == s[0]
  {
    if |s| > 1 {
      DedupSpec(s[1..]);
      assert s == [s[0]] + s[1..];
      var d := Dedup(s[1..]);
      if s[0] != s[1] {
        AnchorIsTotalOrder();
        forall i | 0 <= i < |d| ensures AnchorLe(s[0], d[i]) && s[0] != d[i] {
          assert d[i] in s[1..];
          assert AnchorLe(s[0], s[1]) && (i == 0 || AnchorLe(d[0], d[i]));
        }
      }
    }
  }

  lemma UnionSpec(a: seq<CodeAnchor>, b: seq<CodeAnchor>)
    ensures Canonical(UnionAnchors(a, b))
    ensures forall x :: x in UnionAnchors(a, b) <==> x in a || x in b
  {
    AnchorIsTotalOrder();
    SortSorts(AnchorLe, a + b);
    DedupSpec(Sort(AnchorLe, a + b));
  }

  lemma {:induction false} CanonicalUnique(s: seq<CodeAnchor>, t: seq<CodeAnchor>)
    requires Canonical(s) && Canonical(t)
    requires forall x :: x in s <==> x in t
    ensures s == t
  {
    assert (s != [] ==> s[0] in s) && (t != [] ==> t[0] in t);
    if s != [] && t != [] {
      AnchorIsTotalOrder();
      assert s[0] in t && t[0] in s;
      assert AnchorLe(s[0], t[0]) && AnchorLe(t[0], s[0]);
      assert s == [s[0]] + s[1..] && t == [t[0]] + t[1..];
      forall x ensures x in s[1..] <==> x in t[1..] {
        assert x in s[1..] ==> x in t && x != s[0];
        assert x in t[1..] ==> x in s && x != t[0];
      }
      CanonicalUnique(s[1..], t[1..]);
    }
  }

  lemma UnionIsJoin(a: seq<CodeAnchor>, b: seq<CodeAnchor>, c: seq<CodeAnchor>)
    ensures UnionAnchors(a, b) == UnionAnchors(b, a)
    ensures UnionAnchors(UnionAnchors(a, b), c) == UnionAnchors(a, UnionAnchors(b, c))
    ensures UnionAnchors(a, a) == a <==> Canonical(a)
    ensures UnionAnchors(UnionAnchors(a, []), UnionAnchors(b, [])) == UnionAnchors(a, b)
    ensures UnionAnchors(UnionAnchors(a, b), []) == UnionAnchors(a, b)
    ensures Canonical(a) ==> UnionAnchors(a, []) == a && UnionAnchors([], a) == a
  {
    var ab, ba, bc, aa, a0, b0, za :=
      UnionAnchors(a, b), UnionAnchors(b, a), UnionAnchors(b, c), UnionAnchors(a, a),
      UnionAnchors(a, []), UnionAnchors(b, []), UnionAnchors([], a);
    UnionSpec(a, b); UnionSpec(b, a); UnionSpec(b, c); UnionSpec(a, a);
    UnionSpec(a, []); UnionSpec(b, []); UnionSpec([], a);
    UnionSpec(ab, c); UnionSpec(a, bc); UnionSpec(a0, b0); UnionSpec(ab, []);
    CanonicalUnique(ab, ba);
    CanonicalUnique(UnionAnchors(ab, c), UnionAnchors(a, bc));
    CanonicalUnique(UnionAnchors(a0, b0), ab);
    CanonicalUnique(UnionAnchors(ab, []), ab);
    if Canonical(a) {
      CanonicalUnique(aa, a);
      CanonicalUnique(a0, a);
      CanonicalUnique(za, a);
    }
  }

  // ---- merging is a join ----

  lemma ConfidenceIsJoin(a: seq<Belnap>, b: seq<Belnap>, c: seq<Belnap>)
    ensures JoinConfidence(a, a) == a
    ensures JoinConfidence(a, b) == JoinConfidence(b, a)
    ensures JoinConfidence(JoinConfidence(a, b), c) == JoinConfidence(a, JoinConfidence(b, c))
  {
    assert JoinConfidence(a, a) == a;
    var l, r := JoinConfidence(JoinConfidence(a, b), c), JoinConfidence(a, JoinConfidence(b, c));
    forall i | 0 <= i < |l| ensures l[i] == r[i] {
      assert l[i] == At(a, i).Join(At(b, i)).Join(At(c, i));
      assert r[i] == At(a, i).Join(At(b, i).Join(At(c, i)));
    }
  }

  /** Merging two copies of one id does not depend on which of them is local. */
  lemma MergeCommutes(a: MemoryNode, b: MemoryNode)
    requires a.Id() == b.Id()
    ensures Merge(a, b) == Merge(b, a)
  {
    hide UnionAnchors, JoinConfidence, MinOption, TotalOrder, CountNewBoth, Canonical;
    ConfidenceIsJoin(a.confidence, b.confidence, []);
    UnionIsJoin(a.anchors, b.anchors, []);
    EmbeddingIsTotalOrder();
    LexIsTotalOrder();
    MinOptionIsJoin(EmbeddingLe, a.embedding, b.embedding, None);
    MinOptionIsJoin(LexLe, a.signature, b.signature, None);
  }

  lemma MergeAssociates(a: MemoryNode, b: MemoryNode, c: MemoryNode)
    ensures Merge(Merge(a, b), c) == Merge(a, Merge(b, c))
  {
    hide UnionAnchors, JoinConfidence, MinOption, TotalOrder, CountNewBoth, Canonical;
    ConfidenceIsJoin(a.confidence, b.confidence, c.confidence);
    UnionIsJoin(a.anchors, b.anchors, c.anchors);
    EmbeddingIsTotalOrder();
    LexIsTotalOrder();
    MinOptionIsJoin(EmbeddingLe, a.embedding, b.embedding, c.embedding);
    MinOptionIsJoin(LexLe, a.signature, b.signature, c.signature);
  }

  /** Re-merging a copy with itself is the identity exactly when its anchors are canonical. */
  lemma SelfMerge(n: MemoryNode)
    ensures Merge(n, n) == n <==> Canonical(n.anchors)
  {
    ConfidenceIsJoin(n.confidence, n.confidence, []);
    UnionIsJoin(n.anchors, n.anchors, []);
    LexIsTotalOrder();
    EmbeddingIsTotalOrder();
    MinOptionIsJoin(EmbeddingLe, n.embedding, n.embedding, None);
    MinOptionIsJoin(LexLe, n.signature, n.signature, None);
  }

  // ---- convergence ----

  /** The copies in `s`, merged from the left as they arrive. */
  function Fold(s: seq<MemoryNode>): MemoryNode
    requires s != []
  {
    if |s| == 1 then s[0] else Merge(Fold(s[..|s| - 1]), s[|s| - 1])
  }

  ghost predicate CopiesOf(id: ContentHash, s: seq<MemoryNode>) {
    forall i :: 0 <= i < |s| ==> s[i].Id() == id
  }

  function Canon(n: MemoryNode): MemoryNode {
    n.(anchors := UnionAnchors(n.anchors, []))
  }

  function CanonAll(s: seq<MemoryNode>): seq<MemoryNode> {
    seq(|s|, i requires 0 <= i < |s| => Canon(s[i]))
  }

  lemma CanonSpec(n: MemoryNode)
    ensures Canonical(Canon(n).anchors)
    ensures Canon(n) == n <==> Canonical(n.anchors)
  {
    UnionSpec(n.anchors, []);
    UnionIsJoin(n.anchors, n.anchors, []);
  }

  lemma MergeCanonical(a: MemoryNode, b: MemoryNode)
    ensures Merge(Canon(a), Canon(b)) == Merge(a, b) == Canon(Merge(a, b))
  {
    UnionIsJoin(a.anchors, b.anchors, []);
  }

  /** Merging a copy in a second time changes nothing. */
  lemma MergedTwice(s: MemoryNode, n: MemoryNode)
    ensures Merge(Merge(s, n), n) == Merge(s, n)
  {
    hide MergeNode;
    MergeAssociates(s, n, n);
    SelfMerge(Canon(n));
    CanonSpec(n);
    CanonSpec(Canon(n));
    MergeCanonical(n, n);
    MergeCanonical(Canon(n), Canon(n));
    MergeCanonical(s, n);
    MergeCanonical(s, Canon(n));
  }

  lemma {:induction false} FoldId(s: seq<MemoryNode>, id: ContentHash)
    requires s != [] && CopiesOf(id, s)
    ensures Fold(s).Id() == id
  {
    if |s| > 1 { FoldId(s[..|s| - 1], id); }
  }

  lemma {:induction false} FoldCanon(s: seq<MemoryNode>)
    requires s != []
    ensures Fold(CanonAll(s)) == Canon(Fold(s))
  {
    hide Merge, Canon;
    if |s| > 1 {
      var init := s[..|s| - 1];
      FoldCanon(init);
      assert CanonAll(s)[..|s| - 1] == CanonAll(init);
      MergeCanonical(Fold(init), s[|s| - 1]);
    }
  }

  ghost predicate Below(a: MemoryNode, b: MemoryNode) {
    Merge(a, b) == b
  }

  /** A fold is above each of its copies. */
  lemma {:induction false} FoldAbove(s: seq<MemoryNode>, k: nat, id: ContentHash)
    requires k < |s| && CopiesOf(id, s)
    requires forall i :: 0 <= i < |s| ==> Canonical(s[i].anchors)
    ensures Below(s[k], Fold(s))
  {
    SelfMerge(s[k]);
    if |s| > 1 {
      var init, x := s[..|s| - 1], s[|s| - 1];
      FoldId(init, id);
      MergeCommutes(Fold(init), x);
      if k < |s| - 1 {
        FoldAbove(init, k, id);
        MergeAssociates(s[k], Fold(init), x);
      } else {
        MergeAssociates(x, x, Fold(init));
      }
    }
  }

  /** A fold is below every upper bound of its copies. */
  lemma {:induction false} FoldBelow(s: seq<MemoryNode>, u: MemoryNode)
    requires s != [] && forall i :: 0 <= i < |s| ==> Below(s[i], u)
    ensures Below(Fold(s), u)
  {
    if |s| > 1 {
      var init, x := s[..|s| - 1], s[|s| - 1];
      FoldBelow(init, u);
      MergeAssociates(Fold(init), x, u);
    }
  }

  lemma FoldsAgree(s: seq<MemoryNode>, t: seq<MemoryNode>, id: ContentHash)
    requires s != [] && t != [] && CopiesOf(id, s) && CopiesOf(id, t)
    requires forall n :: n in s <==> n in t
    requires forall i :: 0 <= i < |s| ==> Canonical(s[i].anchors)
    ensures Fold(s) == Fold(t)
  {
    forall i | 0 <= i < |t| ensures Canonical(t[i].anchors) { assert t[i] in s; }
    forall i | 0 <= i < |s| ensures Below(s[i], Fold(t)) {
      assert s[i] in t;
      var k :| 0 <= k < |t| && t[k] == s[i];
      FoldAbove(t, k, id);
    }
    forall i | 0 <= i < |t| ensures Below(t[i], Fold(s)) {
      assert t[i] in s;
      var k :| 0 <= k < |s| && s[k] == t[i];
      FoldAbove(s, k, id);
    }
    FoldBelow(s, Fold(t));
    FoldBelow(t, Fold(s));
    FoldId(s, id);
    FoldId(t, id);
    MergeCommutes(Fold(s), Fold(t));
  }

  /** Whatever is stored has canonical anchors once something was merged into it. */
  ghost predicate Settled(s: seq<MemoryNode>)
    requires s != []
  {
    |s| > 1 || Canonical(s[0].anchors)
  }

  lemma FoldSettled(s: seq<MemoryNode>)
    requires s != []
    ensures Settled(s) <==> Canonical(Fold(s).anchors)
  {
    if |s| > 1 { UnionSpec(Fold(s[..|s| - 1]).anchors, s[|s| - 1].anchors); }
  }

  /** Convergence: two merge sequences over the same copies, in any order and with any
      repetition, agree up to the listing of the anchors, and end in the very same node
      exactly when each of them merged at least once or started from canonical anchors. */
  lemma Convergence(s: seq<MemoryNode>, t: seq<MemoryNode>, id: ContentHash)
    requires s != [] && t != [] && CopiesOf(id, s) && CopiesOf(id, t)
    requires forall n :: n in s <==> n in t
    ensures Canon(Fold(s)) == Canon(Fold(t))
    ensures Fold(s) == Fold(t) <==> (Settled(s) <==> Settled(t))
  {
    hide Fold, Canon, Canonical, CanonAll;
    SameCanons(s, t);
    SameCanons(t, s);
    CanonCopies(s, id);
    CanonCopies(t, id);
    FoldsAgree(CanonAll(s), CanonAll(t), id);
    FoldCanon(s);
    FoldCanon(t);
    FoldSettled(s);
    FoldSettled(t);
    CanonSpec(Fold(s));
    CanonSpec(Fold(t));
    if !Settled(s) && !Settled(t) {
      assert s[0] in t;
      assert s == t;
    }
  }

  lemma SameCanons(s: seq<MemoryNode>, t: seq<MemoryNode>)
    requires forall n :: n in s ==> n in t
    ensures |CanonAll(s)| == |s| && forall n :: n in CanonAll(s) ==> n in CanonAll(t)
  {
    hide Canon;
    forall n | n in CanonAll(s) ensures n in CanonAll(t) {
      var i :| 0 <= i < |s| && CanonAll(s)[i] == n;
      assert s[i] in t;
      var k :| 0 <= k < |t| && t[k] == s[i];
      assert CanonAll(t)[k] == n;
    }
  }

  lemma CanonCopies(s: seq<MemoryNode>, id: ContentHash)
    requires CopiesOf(id, s)
    ensures CopiesOf(id, CanonAll(s)) && forall i :: 0 <= i < |CanonAll(s)| ==> Canonical(CanonAll(s)[i].anchors)
  {
    hide Canonical;
    forall i | 0 <= i < |s| ensures CanonAll(s)[i].Id() == id && Canonical(CanonAll(s)[i].anchors) { CanonSpec(s[i]); }
  }

  // ---- what a merge can only add ----

  /** The dimensions whose contradiction is new in this merge. */
  ghost function NewlyBoth(local: MemoryNode, merged: MemoryNode): set<nat> {
    set i: nat | i < |merged.confidence| && merged.confidence[i] == Both && At(local.confidence, i) != Both
  }

  lemma {:induction false} CountIsCardinality(joined: seq<Belnap>, before: seq<Belnap>)
    ensures CountNewBoth(joined, before)
         == |set i: nat | i < |joined| && joined[i] == Both && At(before, i) != Both|
  {
    var news := set i: nat | i < |joined| && joined[i] == Both && At(before, i) != Both;
    if joined == [] {
      assert news == {};
    } else {
      var last := |joined| - 1;
      var fewer := set i: nat | i < last && joined[..last][i] == Both && At(before, i) != Both;
      CountIsCardinality(joined[..last], before);
      assert news == fewer + if last in news then {last} else {};
    }
  }

  /** A correction or contradiction seen anywhere survives the merge, and the report counts
      exactly the dimensions that became a contradiction. */
  lemma MergeIsMonotone(local: MemoryNode, remote: MemoryNode)
    ensures var m := MergeNode(local, remote);
      && StatusRank(m.node.status) >= StatusRank(local.status)
      && StatusRank(m.node.status) >= StatusRank(remote.status)
      && (m.node.status == local.status || m.node.status == remote.status)
      && (forall i: nat :: At(local.confidence, i) == Both || At(remote.confidence, i) == Both
                           ==> At(m.node.confidence, i) == Both)
      && (forall a :: a in m.node.anchors <==> a in local.anchors || a in remote.anchors)
      && TrustConservatism(m.node.trustTier) <= TrustConservatism(local.trustTier)
      && m.contradictions == |NewlyBoth(local, m.node)|
      && m.node.Id() == local.Id()
  {
    CountIsCardinality(JoinConfidence(local.confidence, remote.confidence), local.confidence);
    UnionSpec(local.anchors, remote.anchors);
  }
}
