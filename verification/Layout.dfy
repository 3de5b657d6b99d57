/** The signed and hashed bytes read back. Readers written against the formats alone
    (crates/mem-core/src/identity.rs, node.rs, edge.rs; crates/mem-authz/src/grant.rs, audit.rs)
    recover every field in its place. */
module Layout {
  import opened Sorting
  import opened Core
  import opened Framing
  import opened Identity
  import opened Grant

  // ---- frames ----

  ghost predicate AreBytes(s: Bytes) { forall i :: 0 <= i < |s| ==> s[i] < 256 }

  /** The number eight bytes stand for, least significant first. */
  function Number(b: Bytes): nat
    requires |b| == 8
  {
    b[0] + 0x100 * b[1] + 0x1_0000 * b[2] + 0x100_0000 * b[3] + 0x1_0000_0000 * b[4]
    + 0x100_0000_0000 * b[5] + 0x1_0000_0000_0000 * b[6] + 0x100_0000_0000_0000 * b[7]
  }

  /** A tag byte, eight bytes of length and that many bytes, again and again. */
  function ReadFrames(b: Bytes): Option<seq<Frame>> {
    if b == [] then Some([])
    else if |b| < 9 || |b| < 9 + Number(b[1..9]) then None
    else
      var end := 9 + Number(b[1..9]);
      var rest := ReadFrames(b[end..]);
      if rest.None? then None else Some([Frame(b[0], b[9..end])] + rest.value)
  }

  function ValueOf(b: Bytes): nat { if b == [] then 0 else b[0] + 256 * ValueOf(b[1..]) }

  lemma {:induction false} DigitsReadBack(n: nat, k: nat)
    requires n < Pow256(k)
    ensures ValueOf(LittleEndian(n, k)) == n && AreBytes(LittleEndian(n, k))
  {
    if k > 0 {
      DigitsReadBack(n / 256, k - 1);
      assert LittleEndian(n, k)[1..] == LittleEndian(n / 256, k - 1);
    }
  }

  lemma NumberIsValue(b: Bytes)
    requires |b| == 8
    ensures Number(b) == ValueOf(b)
  {
    assert b[1..][1..] == b[2..] && b[2..][1..] == b[3..] && b[3..][1..] == b[4..] && b[4..][1..] == b[5..];
    assert b[5..][1..] == b[6..] && b[6..][1..] == b[7..] && b[7..][1..] == [];
    assert ValueOf(b[7..]) == b[7] && ValueOf(b[6..]) == b[6] + 256 * b[7];
    assert ValueOf(b[4..]) == b[4] + 256 * (b[5] + 256 * ValueOf(b[6..]));
    assert ValueOf(b[2..]) == b[2] + 256 * (b[3] + 256 * ValueOf(b[4..]));
  }

  /** Eight bytes of a 64-bit number read back as that number. */
  lemma NumberReadsBack(n: nat)
    requires n < U64_SIZE
    ensures Number(LittleEndian(n, 8)) == n && AreBytes(LittleEndian(n, 8))
  {
    Pow256Of8();
    DigitsReadBack(n, 8);
    NumberIsValue(LittleEndian(n, 8));
  }

  lemma FrameReadsBack(f: Frame, x: Bytes)
    requires |f.bytes| < U64_SIZE
    ensures ReadFrames(Feed(f) + x) == if ReadFrames(x).None? then None else Some([f] + ReadFrames(x).value)
  {
    hide LittleEndian, Number;
    var b, n, end := Feed(f) + x, LittleEndian(|f.bytes|, 8), 9 + |f.bytes|;
    NumberReadsBack(|f.bytes|);
    assert b[0] == f.tag && b[1..9] == n && b[9..end] == f.bytes && b[end..] == x;
  }

  /** The framing reads back: whatever list of fields was framed, the reader recovers it. */
  lemma {:induction false} FramesReadBack(fs: seq<Frame>)
    requires Sized(fs)
    ensures ReadFrames(Encode(fs)) == Some(fs)
  {
    if fs != [] {
      hide ReadFrames, Feed;
      FramesReadBack(fs[1..]);
      FrameReadsBack(fs[0], Encode(fs[1..]));
      assert fs == [fs[0]] + fs[1..];
    }
  }

  // ---- audit records ----

  lemma RecordReadsBack(r: RawRecord)
    requires Sized(RecordFrames(r))
    ensures ReadFrames(Encode(RecordFrames(r))) == Some([
      Frame(0, Ascii("mem-authz:audit:v1")), Frame(1, LittleEndian(r.sequence, 8)),
      Frame(2, LittleEndian(r.timestamp, 8)), Frame(3, r.prevHash),
      Frame(4, Ascii(match r.event case Read => "Read" case Write => "Write" case Denied => "Denied")),
      Frame(5, r.actor), Frame(6, r.resource), Frame(7, r.detail)])
  {
    hide LittleEndian, Ascii, Encode, ReadFrames;
    FramesReadBack(RecordFrames(r));
  }

  // ---- grants ----

  /** One byte per permission, read first. */
  function Bit(b: bool): nat { if b then 1 else 0 }

  /** The fields of a signed grant, each in its place. */
  ghost predicate LaidOut(g: CapabilityGrant, fs: seq<Frame>) {
    var scopes, steps := |g.allowedResources|, |g.delegationChain|;
    var p := 4 + 2 * scopes;
    var d := p + 2;
    var e := d + 2 * steps;
    && |fs| == e + (if g.revoked then 2 else 1)
    && fs[0] == Frame(0, Ascii("mem-authz:grant:v1"))
    && fs[1] == Frame(1, g.id) && fs[2] == Frame(2, g.issuer) && fs[3] == Frame(3, g.recipient)
    && (forall i :: 0 <= i < scopes ==>
          && fs[4 + 2 * i] == Frame(4, g.allowedResources[i].resourceId)
          && fs[5 + 2 * i] == Frame(5, [Bit(g.allowedResources[i].canRead), Bit(g.allowedResources[i].canWrite)]))
    && fs[p] == Frame(6, Ascii(match g.policy
                               case ReadOnly => "ReadOnly"
                               case Guided => "Guided"
                               case Operator => "Operator"
                               case Maintainer => "Maintainer"))
    && fs[p + 1] == Frame(7, LittleEndian(g.expiresAtMs, 8))
    && (forall i :: 0 <= i < steps ==>
          && fs[d + 2 * i] == Frame(8, g.delegationChain[i].delegator)
          && fs[d + 1 + 2 * i] == Frame(9, LittleEndian(g.delegationChain[i].atMs, 8)))
    && fs[e] == Frame(10, g.issuerPubkey)
    && (g.revoked ==> fs[e + 1] == Frame(11, Ascii("revoked")))
  }

  lemma {:induction false} ScopesLaidOut(rs: seq<ResourceScope>)
    ensures var fs := ScopeFrames(rs);
      && |fs| == 2 * |rs|
      && forall i :: 0 <= i < |rs| ==>
           && fs[2 * i] == Frame(4, rs[i].resourceId)
           && fs[2 * i + 1] == Frame(5, [Bit(rs[i].canRead), Bit(rs[i].canWrite)])
  {
    if rs != [] {
      var fs, rest, gs := ScopeFrames(rs), rs[1..], ScopeFrames(rs[1..]);
      ScopesLaidOut(rest);
      forall i | 0 <= i < |rs|
        ensures fs[2 * i] == Frame(4, rs[i].resourceId)
        ensures fs[2 * i + 1] == Frame(5, [Bit(rs[i].canRead), Bit(rs[i].canWrite)])
      {
        if i > 0 {
          assert fs[2 * i] == gs[2 * (i - 1)] && fs[2 * i + 1] == gs[2 * (i - 1) + 1] && rs[i] == rest[i - 1];
        }
      }
    }
  }

  lemma {:induction false} StepsLaidOut(ds: seq<DelegationStep>)
    ensures var fs := DelegationFrames(ds);
      && |fs| == 2 * |ds|
      && forall i :: 0 <= i < |ds| ==>
           && fs[2 * i] == Frame(8, ds[i].delegator)
           && fs[2 * i + 1] == Frame(9, LittleEndian(ds[i].atMs, 8))
  {
    hide LittleEndian;
    if ds != [] {
      var fs, rest, gs := DelegationFrames(ds), ds[1..], DelegationFrames(ds[1..]);
      StepsLaidOut(rest);
      forall i | 0 <= i < |ds|
        ensures fs[2 * i] == Frame(8, ds[i].delegator)
        ensures fs[2 * i + 1] == Frame(9, LittleEndian(ds[i].atMs, 8))
      {
        if i > 0 {
          assert fs[2 * i] == gs[2 * (i - 1)] && fs[2 * i + 1] == gs[2 * (i - 1) + 1] && ds[i] == rest[i - 1];
        }
      }
    }
  }

  /** What a grant's signature is over, read back field by field. */
  lemma GrantReadsBack(g: CapabilityGrant)
    requires Sized(GrantFrames(g))
    ensures ReadFrames(Preimage(g)).Some? && LaidOut(g, ReadFrames(Preimage(g)).value)
  {
    hide LittleEndian, Ascii, Encode, ReadFrames, ScopeFrames, DelegationFrames;
    FramesReadBack(GrantFrames(g));
    ScopesLaidOut(g.allowedResources);
    StepsLaidOut(g.delegationChain);
  }

  // ---- node identities ----

  /** The fields between unescaped bars, with the escapes taken off. */
  function ReadFields(b: Bytes): (fs: seq<Bytes>)
    ensures fs != []
  {
    if b == [] then [[]]
    else if b[0] == 124 then [[]] + ReadFields(b[1..])
    else if b[0] == 92 && |b| > 1 then var fs := ReadFields(b[2..]); [[b[1]] + fs[0]] + fs[1..]
    else var fs := ReadFields(b[1..]); [[b[0]] + fs[0]] + fs[1..]
  }

  lemma {:induction false} FieldReadsBack(f: Bytes, x: Bytes)
    ensures ReadFields(EscEach(f) + ([BAR] + x)) == [f] + ReadFields(x)
    ensures ReadFields(EscEach(f)) == [f]
  {
    if f == [] {
      assert [] + ([BAR] + x) == [BAR] + x && ([BAR] + x)[1..] == x;
    } else {
      var c, rest := f[0], f[1..];
      FieldReadsBack(rest, x);
      EscHead(f, x);
      assert f == [c] + rest;
      OneReadsBack(c, EscEach(rest) + ([BAR] + x));
      OneReadsBack(c, EscEach(rest));
    }
  }

  lemma OneReadsBack(c: nat, b: Bytes)
    ensures ReadFields(EscByte(c) + b) == [[c] + ReadFields(b)[0]] + ReadFields(b)[1..]
  {
    var e := EscByte(c) + b;
    if |EscByte(c)| == 2 {
      assert e[0] == BACKSLASH && e[1] == c && e[2..] == b;
    } else {
      assert e[0] == c && e[1..] == b;
    }
  }

  lemma {:induction false} JoinedReadsBack(fs: seq<Bytes>)
    requires fs != []
    ensures ReadFields(Joined(fs)) == fs
  {
    hide ReadFields, EscEach;
    if |fs| == 1 {
      assert fs == [fs[0]];
      JoinedLast(fs[0]);
      FieldReadsBack(fs[0], []);
    } else {
      JoinedReadsBack(fs[1..]);
      FieldReadsBack(fs[0], Joined(fs[1..]));
      assert fs == [fs[0]] + fs[1..];
    }
  }

  /** A number in decimal: digits only, no leading zero, most significant first. */
  function DecimalValue(s: Bytes): int { if s == [] then 0 else 10 * DecimalValue(s[..|s| - 1]) + s[|s| - 1] - 48 }

  lemma {:induction false} DecimalReadsBack(n: nat)
    ensures var s := Decimal(n);
      && DecimalValue(s) == n && s != [] && (s[0] == 48 ==> s == [48])
      && forall i :: 0 <= i < |s| ==> 48 <= s[i] <= 57
  {
    var s := Decimal(n);
    if n >= 10 {
      DecimalReadsBack(n / 10);
      assert s[..|s| - 1] == Decimal(n / 10);
    } else {
      assert s[..0] == [];
    }
  }

  /** A source reference read back: its kind, its parts in order, and its offsets in decimal. */
  lemma RefReadsBack(r: SourceRef)
    ensures ReadFields(CanonicalBytes(r)) ==
      match r
      case Artifact(repo, path, sha, start, end) =>
        [Ascii("artifact"), repo, path, sha, Decimal(start), Decimal(end)]
      case GitCommit(repo, sha) => [Ascii("git_commit"), repo, sha]
      case DagNative(key) => [Ascii("dag_native"), key]
  {
    hide Ascii, Decimal, ReadFields, Joined, CanonicalBytes;
    CanonicalIsJoined(r);
    JoinedReadsBack(Fields(r));
  }

  lemma TwoDigits(v: nat)
    ensures LittleEndian(v, 2) == [v % 256, v / 256 % 256]
  {
    assert LittleEndian(v / 256, 1) == [v / 256 % 256] + LittleEndian(v / 256 / 256, 0);
  }

  /** The bytes behind a node id, read back field by field. */
  lemma IdentityReadsBack(n: MemoryNode)
    requires Sized(IdentityFrames(n))
    ensures ReadFrames(Encode(IdentityFrames(n))) == Some([
      Frame(0, Ascii("memory-node:v1")), Frame(1, [n.schemaVersion % 256, n.schemaVersion / 256 % 256]),
      Frame(2, Ascii(if n.plane == Derived then "derived" else "asserted")), Frame(3, Ascii(Discriminant(n.kind))),
      Frame(4, n.repo), Frame(5, n.author), Frame(6, CanonicalBytes(n.sourceRef)), Frame(7, n.content)])
  {
    hide Ascii, Discriminant, CanonicalBytes, Encode, ReadFrames;
    TwoDigits(n.schemaVersion);
    hide LittleEndian;
    FramesReadBack(IdentityFrames(n));
  }

  /** The name each kind goes by in an id. */
  lemma KindNames(k: NodeKind)
    ensures
      || (k, Discriminant(k)) in {
           (Commit, "commit"), (Pr, "pr"), (Adr, "adr"), (NodeKind.Audit, "audit"), (Finding, "finding"),
           (Handoff, "handoff"), (ManifestChange, "manifest_change"), (PinBump, "pin_bump"),
           (DriftEvent, "drift_event"), (Benchmark, "benchmark"), (AgentAction, "agent_action"),
           (Blocker, "blocker"), (TechDebt, "tech_debt"), (WorkPackage, "work_package"),
           (Rationale, "rationale"), (AnalogyHypothesis, "analogy_hypothesis"), (Doc, "doc"), (Tenant, "tenant"),
           (ChainNetwork, "chain_network"), (ChainContract, "chain_contract"), (ChainEvent, "chain_event"),
           (ChainCheckpoint, "chain_checkpoint"), (Branch, "branch")}
      || (k.Sprint? && Discriminant(k) ==
            "sprint:" + match k.phase case Kickoff => "kickoff" case Daily => "daily" case Close => "close")
      || (k.Narrative? && Discriminant(k) ==
            "narrative:" + match k.narrative
                           case Journal => "journal" case Essay => "essay" case CaseStudy => "casestudy")
      || (k.Claim? && Discriminant(k) ==
            "claim:" + match k.claim
                       case Confirmed => "confirmed" case Corrected => "corrected" case Refined => "refined")
  {
  }

  // ---- edge keys ----

  const EDGE_KINDS: seq<EdgeKind> := [
    TemporalNext, MergeParent, Supersedes, DependsOn, CausedBy, Motivates, Implements, Decides, Refutes, Contradicts,
    DerivedFrom, AnalogousTo, References, AnchoredTo, Emits, Touches, BranchContains]

  /** An edge key is one id, the other, and the kind's place in the list of all seventeen. */
  lemma KeyReadsBack(from: Bytes, to: Bytes, kind: EdgeKind)
    requires |from| == |to| == 32
    ensures var key := KeyBytes(from, to, kind);
      && |key| == 65 && key[..32] == from && key[32..64] == to
      && 1 <= key[64] <= |EDGE_KINDS| && EDGE_KINDS[key[64] - 1] == kind
  {
  }
}
