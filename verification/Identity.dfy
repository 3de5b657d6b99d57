/** The node identity preimage (crates/mem-core/src/node.rs, identity.rs). */
module Identity {
  import opened Sorting
  import opened Core
  import opened Framing

  const BAR: nat := 0x7C
  const BACKSLASH: nat := 0x5C

  // ---- escaping ----

  function ReplaceByte(s: Bytes, c: nat, text: Bytes): Bytes {
    if s == [] then [] else (if s[0] == c then text else [s[0]]) + ReplaceByte(s[1..], c, text)
  }

  /** Two passes over the whole string, as the source does it. */
  function Esc(s: Bytes): Bytes {
    ReplaceByte(ReplaceByte(s, BACKSLASH, [BACKSLASH, BACKSLASH]), BAR, [BACKSLASH, BAR])
  }

  function EscByte(c: nat): Bytes {
    if c == BACKSLASH || c == BAR then [BACKSLASH, c] else [c]
  }

  /** One byte at a time: the form the proofs use. */
  function EscEach(s: Bytes): Bytes {
    if s == [] then [] else EscByte(s[0]) + EscEach(s[1..])
  }

  lemma Assoc(a: Bytes, b: Bytes, c: Bytes)
    ensures (a + b) + c == a + (b + c)
  {
  }

  lemma {:induction false} ReplaceConcat(s: Bytes, t: Bytes, c: nat, text: Bytes)
    ensures ReplaceByte(s + t, c, text) == ReplaceByte(s, c, text) + ReplaceByte(t, c, text)
  {
    if s == [] {
      assert s + t == t;
      assert [] + ReplaceByte(t, c, text) == ReplaceByte(t, c, text);
    } else {
      var head := if s[0] == c then text else [s[0]];
      assert (s + t)[0] == s[0] && (s + t)[1..] == s[1..] + t;
      ReplaceConcat(s[1..], t, c, text);
      Assoc(head, ReplaceByte(s[1..], c, text), ReplaceByte(t, c, text));
    }
  }

  lemma ReplaceShort(a: nat, b: nat, c: nat, text: Bytes)
    ensures ReplaceByte([a], c, text) == if a == c then text else [a]
    ensures ReplaceByte([a, b], c, text) == (if a == c then text else [a]) + (if b == c then text else [b])
  {
    assert [a][1..] == [] && [a, b][1..] == [b];
    assert ReplaceByte([b], c, text) == (if b == c then text else [b]) + ReplaceByte([b][1..], c, text);
  }

  lemma {:induction false} EscIsEscEach(s: Bytes)
    ensures Esc(s) == EscEach(s)
  {
    if s != [] {
      EscIsEscEach(s[1..]);
      var one := if s[0] == BACKSLASH then [BACKSLASH, BACKSLASH] else [s[0]];
      ReplaceConcat(one, ReplaceByte(s[1..], BACKSLASH, [BACKSLASH, BACKSLASH]), BAR, [BACKSLASH, BAR]);
      ReplaceShort(s[0], s[0], BAR, [BACKSLASH, BAR]);
    }
  }

  lemma EscHead(s: Bytes, x: Bytes)
    ensures s == [] ==> EscEach(s) + ([BAR] + x) == [BAR] + x
    ensures s != [] ==> EscEach(s) + ([BAR] + x) == EscByte(s[0]) + (EscEach(s[1..]) + ([BAR] + x))
  {
    if s != [] { Assoc(EscByte(s[0]), EscEach(s[1..]), [BAR] + x); }
  }

  lemma EscByteIsPrefixFree(c: nat, d: nat, u: Bytes, v: Bytes)
    requires EscByte(c) + u == EscByte(d) + v
    ensures c == d && u == v
  {
    var l, r := EscByte(c) + u, EscByte(d) + v;
    assert l[0] == EscByte(c)[0] && r[0] == EscByte(d)[0];
    assert |EscByte(c)| == 2 ==> l[1] == c;
    assert |EscByte(d)| == 2 ==> r[1] == d;
    assert l[|EscByte(c)|..] == u && r[|EscByte(d)|..] == v;
  }

  lemma NotABar(c: nat, u: Bytes, x: Bytes)
    ensures EscByte(c) + u != [BAR] + x
  {
    assert (EscByte(c) + u)[0] != ([BAR] + x)[0];
  }

  /** An unescaped bar ends a field and nothing else does. */
  lemma {:induction false} FieldEnds(s: Bytes, t: Bytes, x: Bytes, y: Bytes)
    requires EscEach(s) + ([BAR] + x) == EscEach(t) + ([BAR] + y)
    ensures s == t && x == y
  {
    hide EscEach, EscByte;
    EscHead(s, x);
    EscHead(t, y);
    if s != [] && t != [] {
      EscByteIsPrefixFree(s[0], t[0], EscEach(s[1..]) + ([BAR] + x), EscEach(t[1..]) + ([BAR] + y));
      FieldEnds(s[1..], t[1..], x, y);
      assert s == [s[0]] + s[1..] && t == [t[0]] + t[1..];
    } else if s != [] {
      NotABar(s[0], EscEach(s[1..]) + ([BAR] + x), y);
    } else if t != [] {
      NotABar(t[0], EscEach(t[1..]) + ([BAR] + y), x);
    } else {
      assert ([BAR] + x)[1..] == x && ([BAR] + y)[1..] == y;
    }
  }

  // ---- lists of fields ----

  function Joined(fs: seq<Bytes>): Bytes
    requires fs != []
  {
    EscEach(fs[0]) + if |fs| == 1 then [] else [BAR] + Joined(fs[1..])
  }

  lemma JoinedCons(f: Bytes, rest: seq<Bytes>)
    requires rest != []
    ensures Joined([f] + rest) == EscEach(f) + ([BAR] + Joined(rest))
  {
    assert ([f] + rest)[1..] == rest;
  }

  /** What follows the first field, once a bar is put behind the list. */
  function Rest(a: seq<Bytes>): Bytes
    requires a != []
  {
    if |a| == 1 then [] else Joined(a[1..]) + [BAR]
  }

  lemma JoinedThenBar(a: seq<Bytes>)
    requires a != []
    ensures Joined(a) + [BAR] == EscEach(a[0]) + ([BAR] + Rest(a))
  {
    hide EscEach;
    if |a| == 1 {
      assert Joined(a) == EscEach(a[0]) + [] == EscEach(a[0]);
      assert [BAR] + [] == [BAR];
    } else {
      Assoc(EscEach(a[0]), [BAR] + Joined(a[1..]), [BAR]);
      Assoc([BAR], Joined(a[1..]), [BAR]);
    }
  }

  lemma {:induction false} JoinedInjective(a: seq<Bytes>, b: seq<Bytes>)
    requires a != [] && b != [] && Joined(a) == Joined(b)
    ensures a == b
  {
    hide Joined, EscEach;
    JoinedThenBar(a);
    JoinedThenBar(b);
    FieldEnds(a[0], b[0], Rest(a), Rest(b));
    if |a| > 1 && |b| > 1 {
      assert Rest(a)[..|Rest(a)| - 1] == Joined(a[1..]) && Rest(b)[..|Rest(b)| - 1] == Joined(b[1..]);
      JoinedInjective(a[1..], b[1..]);
    }
    assert a == [a[0]] + a[1..] && b == [b[0]] + b[1..];
  }

  // ---- decimal numbers ----

  function Decimal(n: nat): Bytes {
    if n < 10 then [48 + n] else Decimal(n / 10) + [48 + n % 10]
  }

  lemma {:induction false} DecimalInjective(a: nat, b: nat)
    requires Decimal(a) == Decimal(b)
    ensures a == b
  {
    var x, y := Decimal(a), Decimal(b);
    assert a >= 10 ==> |Decimal(a / 10)| > 0;
    assert b >= 10 ==> |Decimal(b / 10)| > 0;
    assert x[|x| - 1] == y[|y| - 1];
    if a >= 10 && b >= 10 {
      assert x[..|x| - 1] == Decimal(a / 10) && y[..|y| - 1] == Decimal(b / 10);
      DecimalInjective(a / 10, b / 10);
    }
  }

  ghost predicate NoSpecial(s: Bytes) {
    forall i :: 0 <= i < |s| ==> s[i] != BAR && s[i] != BACKSLASH
  }

  lemma {:induction false} PlainStays(s: Bytes)
    requires NoSpecial(s)
    ensures EscEach(s) == s
  {
    if s != [] {
      PlainStays(s[1..]);
      assert s == [s[0]] + s[1..];
    }
  }

  lemma {:induction false} DecimalIsPlain(n: nat)
    ensures NoSpecial(Decimal(n))
  {
    if n >= 10 { DecimalIsPlain(n / 10); }
  }

  // ---- source references ----

  function CanonicalBytes(r: SourceRef): Bytes {
    match r
    case Artifact(repo, path, sha, start, end) =>
      Ascii("artifact|") + (Esc(repo) + ([BAR] + (Esc(path) + ([BAR] + (Esc(sha) + ([BAR] +
        (Decimal(start) + ([BAR] + Decimal(end)))))))))
    case GitCommit(repo, sha) => Ascii("git_commit|") + (Esc(repo) + ([BAR] + Esc(sha)))
    case DagNative(key) => Ascii("dag_native|") + Esc(key)
  }

  function Fields(r: SourceRef): seq<Bytes> {
    match r
    case Artifact(repo, path, sha, start, end) => [Ascii("artifact"), repo, path, sha, Decimal(start), Decimal(end)]
    case GitCommit(repo, sha) => [Ascii("git_commit"), repo, sha]
    case DagNative(key) => [Ascii("dag_native"), key]
  }

  lemma TagBytes()
    ensures Ascii("artifact|") == Ascii("artifact") + [BAR] && NoSpecial(Ascii("artifact"))
    ensures Ascii("git_commit|") == Ascii("git_commit") + [BAR] && NoSpecial(Ascii("git_commit"))
    ensures Ascii("dag_native|") == Ascii("dag_native") + [BAR] && NoSpecial(Ascii("dag_native"))
  {
  }

  lemma JoinedLast(f: Bytes)
    ensures Joined([f]) == EscEach(f)
  {
    assert EscEach(f) + [] == EscEach(f);
  }

  lemma JoinedTag(tag: Bytes, rest: seq<Bytes>)
    requires NoSpecial(tag) && rest != []
    ensures Joined([tag] + rest) == (tag + [BAR]) + Joined(rest)
  {
    JoinedCons(tag, rest);
    PlainStays(tag);
    Assoc(tag, [BAR], Joined(rest));
  }

  lemma CanonicalIsJoined(r: SourceRef)
    ensures CanonicalBytes(r) == Joined(Fields(r))
  {
    hide Joined, EscEach, Esc, Decimal, NoSpecial, Ascii;
    TagBytes();
    match r {
      case Artifact(repo, path, sha, start, end) =>
        var s, e := Decimal(start), Decimal(end);
        EscIsEscEach(repo); EscIsEscEach(path); EscIsEscEach(sha);
        DecimalIsPlain(start); DecimalIsPlain(end);
        PlainStays(s); PlainStays(e);
        JoinedLast(e);
        JoinedCons(s, [e]);
        assert [s] + [e] == [s, e];
        JoinedCons(sha, [s, e]);
        assert [sha] + [s, e] == [sha, s, e];
        JoinedCons(path, [sha, s, e]);
        assert [path] + [sha, s, e] == [path, sha, s, e];
        JoinedCons(repo, [path, sha, s, e]);
        assert [repo] + [path, sha, s, e] == [repo, path, sha, s, e];
        JoinedTag(Ascii("artifact"), [repo, path, sha, s, e]);
        assert [Ascii("artifact")] + [repo, path, sha, s, e] == Fields(r);
      case GitCommit(repo, sha) =>
        EscIsEscEach(repo); EscIsEscEach(sha);
        JoinedLast(sha);
        JoinedCons(repo, [sha]);
        assert [repo] + [sha] == [repo, sha];
        JoinedTag(Ascii("git_commit"), [repo, sha]);
        assert [Ascii("git_commit")] + [repo, sha] == Fields(r);
      case DagNative(key) =>
        EscIsEscEach(key);
        JoinedLast(key);
        JoinedTag(Ascii("dag_native"), [key]);
        assert [Ascii("dag_native")] + [key] == Fields(r);
    }
  }

  /** Distinct source references have distinct canonical bytes, whatever bars or backslashes
      their parts contain. */
  lemma CanonicalBytesInjective(a: SourceRef, b: SourceRef)
    requires CanonicalBytes(a) == CanonicalBytes(b)
    ensures a == b
  {
    CanonicalIsJoined(a);
    CanonicalIsJoined(b);
    JoinedInjective(Fields(a), Fields(b));
    var x, y := Fields(a), Fields(b);
    assert |x| == |y| && forall i :: 0 <= i < |x| ==> x[i] == y[i];
    match (a, b) {
      case (Artifact(_, _, _, s, e), Artifact(_, _, _, s', e')) =>
        assert x[4] == y[4] && x[5] == y[5];
        DecimalInjective(s, s');
        DecimalInjective(e, e');
      case _ =>
    }
  }

  // ---- node kinds ----

  function Discriminant(k: NodeKind): string {
    match k
    case Commit => "commit"
    case Pr => "pr"
    case Sprint(Kickoff) => "sprint:kickoff"
    case Sprint(Daily) => "sprint:daily"
    case Sprint(Close) => "sprint:close"
    case Adr => "adr"
    case Audit => "audit"
    case Finding => "finding"
    case Handoff => "handoff"
    case Narrative(Journal) => "narrative:journal"
    case Narrative(Essay) => "narrative:essay"
    case Narrative(CaseStudy) => "narrative:casestudy"
    case Claim(Confirmed) => "claim:confirmed"
    case Claim(Corrected) => "claim:corrected"
    case Claim(Refined) => "claim:refined"
    case ManifestChange => "manifest_change"
    case PinBump => "pin_bump"
    case DriftEvent => "drift_event"
    case Benchmark => "benchmark"
    case AgentAction => "agent_action"
    case Blocker => "blocker"
    case TechDebt => "tech_debt"
    case WorkPackage => "work_package"
    case Rationale => "rationale"
    case AnalogyHypothesis => "analogy_hypothesis"
    case Doc => "doc"
    case Tenant => "tenant"
    case ChainNetwork => "chain_network"
    case ChainContract => "chain_contract"
    case ChainEvent => "chain_event"
    case ChainCheckpoint => "chain_checkpoint"
    case Branch => "branch"
  }

  /** Length, first, ninth and last letter tell every kind apart. */
  function Fingerprint(s: string): (nat, char, char, char)
    requires s != []
  {
    (|s|, s[0], if |s| > 8 then s[8] else ' ', s[|s| - 1])
  }

  function KindFingerprint(k: NodeKind): (nat, char, char, char) {
    match k
    case Commit => (6, 'c', ' ', 't')
    case Pr => (2, 'p', ' ', 'r')
    case Sprint(Kickoff) => (14, 's', 'i', 'f')
    case Sprint(Daily) => (12, 's', 'a', 'y')
    case Sprint(Close) => (12, 's', 'l', 'e')
    case Adr => (3, 'a', ' ', 'r')
    case Audit => (5, 'a', ' ', 't')
    case Finding => (7, 'f', ' ', 'g')
    case Handoff => (7, 'h', ' ', 'f')
    case Narrative(Journal) => (17, 'n', 'e', 'l')
    case Narrative(Essay) => (15, 'n', 'e', 'y')
    case Narrative(CaseStudy) => (19, 'n', 'e', 'y')
    case Claim(Confirmed) => (15, 'c', 'n', 'd')
    case Claim(Corrected) => (15, 'c', 'r', 'd')
    case Claim(Refined) => (13, 'c', 'f', 'd')
    case ManifestChange => (15, 'm', '_', 'e')
    case PinBump => (8, 'p', ' ', 'p')
    case DriftEvent => (11, 'd', 'e', 't')
    case Benchmark => (9, 'b', 'k', 'k')
    case AgentAction => (12, 'a', 't', 'n')
    case Blocker => (7, 'b', ' ', 'r')
    case TechDebt => (9, 't', 't', 't')
    case WorkPackage => (12, 'w', 'k', 'e')
    case Rationale => (9, 'r', 'e', 'e')
    case AnalogyHypothesis => (18, 'a', 'h', 's')
    case Doc => (3, 'd', ' ', 'c')
    case Tenant => (6, 't', ' ', 't')
    case ChainNetwork => (13, 'c', 't', 'k')
    case ChainContract => (14, 'c', 'n', 't')
    case ChainEvent => (11, 'c', 'e', 't')
    case ChainCheckpoint => (16, 'c', 'e', 't')
    case Branch => (6, 'b', ' ', 'h')
  }

  lemma FingerprintOfKind(k: NodeKind)
    ensures Discriminant(k) != [] && Fingerprint(Discriminant(k)) == KindFingerprint(k)
  {
  }

  lemma DiscriminantInjective(a: NodeKind, b: NodeKind)
    requires Discriminant(a) == Discriminant(b)
    ensures a == b
  {
    hide Discriminant, Fingerprint;
    FingerprintOfKind(a);
    FingerprintOfKind(b);
  }

  // ---- the identity preimage ----

  function PlaneTag(p: Plane): string { match p case Derived => "derived" case Asserted => "asserted" }

  function IdentityFrames(n: MemoryNode): seq<Frame> {
    [Frame(0, Ascii("memory-node:v1")), Frame(1, LittleEndian(n.schemaVersion, 2)), Frame(2, Ascii(PlaneTag(n.plane))),
     Frame(3, Ascii(Discriminant(n.kind))), Frame(4, n.repo), Frame(5, n.author), Frame(6, CanonicalBytes(n.sourceRef)),
     Frame(7, n.content)]
  }

  /** The bytes hashed for a node id determine every identity field, and so the id stands for
      them: two nodes with equal preimages have equal identities. */
  lemma PreimageDeterminesIdentity(a: MemoryNode, b: MemoryNode)
    requires Sized(IdentityFrames(a)) && Sized(IdentityFrames(b))
    requires a.schemaVersion < 0x1_0000 && b.schemaVersion < 0x1_0000
    ensures Encode(IdentityFrames(a)) == Encode(IdentityFrames(b)) <==> a.Id() == b.Id()
  {
    hide Encode, Ascii, Discriminant, CanonicalBytes, LittleEndian, Sized, Pow256;
    if Encode(IdentityFrames(a)) == Encode(IdentityFrames(b)) {
      EncodeInjective(IdentityFrames(a), IdentityFrames(b));
      var x, y := IdentityFrames(a), IdentityFrames(b);
      assert x[1] == y[1] && x[2] == y[2] && x[3] == y[3] && x[4] == y[4] && x[5] == y[5] && x[6] == y[6];
      assert x[7] == y[7];
      Pow256Of8();
      LittleEndianInjective(a.schemaVersion, b.schemaVersion, 2);
      AsciiInjective(PlaneTag(a.plane), PlaneTag(b.plane));
      assert |"derived"| == 7 && |"asserted"| == 8;
      AsciiInjective(Discriminant(a.kind), Discriminant(b.kind));
      DiscriminantInjective(a.kind, b.kind);
      CanonicalBytesInjective(a.sourceRef, b.sourceRef);
    }
  }

  // ---- the edge key ----

  function KindTag(k: EdgeKind): nat {
    match k
    case TemporalNext => 1 case MergeParent => 2 case Supersedes => 3 case DependsOn => 4 case CausedBy => 5
    case Motivates => 6 case Implements => 7 case Decides => 8 case Refutes => 9 case Contradicts => 10
    case DerivedFrom => 11 case AnalogousTo => 12 case References => 13 case AnchoredTo => 14 case Emits => 15
    case Touches => 16 case BranchContains => 17
  }

  function KeyBytes(from: Bytes, to: Bytes, kind: EdgeKind): Bytes { from + to + [KindTag(kind)] }

  /** An edge is identified by its ends and kind: with 32-byte ids its key determines all three. */
  lemma KeyDeterminesEdge(a: Bytes, b: Bytes, k: EdgeKind, a': Bytes, b': Bytes, k': EdgeKind)
    requires |a| == |b| == |a'| == |b'| == 32
    ensures |KeyBytes(a, b, k)| == 65
    ensures KeyBytes(a, b, k) == KeyBytes(a', b', k') <==> a == a' && b == b' && k == k'
  {
    var x, y := KeyBytes(a, b, k), KeyBytes(a', b', k');
    assert x[..32] == a && y[..32] == a' && x[32..64] == b && y[32..64] == b' && x[64] == KindTag(k);
    assert y[64] == KindTag(k');
  }
}
