/** Signed capability grants (crates/mem-authz/src/grant.rs): what is signed and what is checked. */
module Grant {
  import opened Sorting
  import opened Framing

  datatype Op = Read | Write

  datatype AuthzError = Revoked | Expired | Unsigned | BadSignature | ResourceDenied | OperationDenied

  datatype ResourceScope = ResourceScope(resourceId: Bytes, canRead: bool, canWrite: bool)

  datatype PolicyProfile = ReadOnly | Guided | Operator | Maintainer

  datatype DelegationStep = DelegationStep(delegator: Bytes, atMs: nat)

  datatype CapabilityGrant = CapabilityGrant(
    id: Bytes, issuer: Bytes, recipient: Bytes, allowedResources: seq<ResourceScope>, policy: PolicyProfile,
    expiresAtMs: nat, revoked: bool, delegationChain: seq<DelegationStep>, issuerPubkey: Bytes, signature: Bytes)

  // ---- the signing preimage ----

  function Flag(b: bool): nat { if b then 1 else 0 }

  function PolicyName(p: PolicyProfile): string {
    match p
    case ReadOnly => "ReadOnly"
    case Guided => "Guided"
    case Operator => "Operator"
    case Maintainer => "Maintainer"
  }

  function ScopeFrames(rs: seq<ResourceScope>): seq<Frame> {
    if rs == [] then []
    else [Frame(4, rs[0].resourceId), Frame(5, [Flag(rs[0].canRead), Flag(rs[0].canWrite)])] + ScopeFrames(rs[1..])
  }

  function DelegationFrames(ds: seq<DelegationStep>): seq<Frame> {
    if ds == [] then []
    else [Frame(8, ds[0].delegator), Frame(9, LittleEndian(ds[0].atMs, 8))] + DelegationFrames(ds[1..])
  }

  function LastFrames(g: CapabilityGrant): seq<Frame> {
    [Frame(10, g.issuerPubkey)] + if g.revoked then [Frame(11, Ascii("revoked"))] else []
  }

  function GrantFrames(g: CapabilityGrant): seq<Frame> {
    [Frame(0, Ascii("mem-authz:grant:v1")), Frame(1, g.id), Frame(2, g.issuer), Frame(3, g.recipient)] +
    (ScopeFrames(g.allowedResources) +
     ([Frame(6, Ascii(PolicyName(g.policy))), Frame(7, LittleEndian(g.expiresAtMs, 8))] +
      (DelegationFrames(g.delegationChain) + LastFrames(g))))
  }

  function Preimage(g: CapabilityGrant): Bytes { Encode(GrantFrames(g)) }

  /** The machine's own limits: 64-bit times and lengths. */
  predicate Representable(g: CapabilityGrant) {
    && Sized(GrantFrames(g)) && g.expiresAtMs < U64_SIZE
    && forall i :: 0 <= i < |g.delegationChain| ==> g.delegationChain[i].atMs < U64_SIZE
  }

  lemma SplitEqual(p: seq<Frame>, q: seq<Frame>, x: seq<Frame>, y: seq<Frame>)
    requires p + x == q + y && |p| == |q|
    ensures p == q && x == y
  {
    assert (p + x)[..|p|] == p && (q + y)[..|q|] == q && (p + x)[|p|..] == x && (q + y)[|q|..] == y;
  }

  function OneScope(r: ResourceScope): seq<Frame> {
    [Frame(4, r.resourceId), Frame(5, [Flag(r.canRead), Flag(r.canWrite)])]
  }

  function OneDelegation(d: DelegationStep): seq<Frame> {
    [Frame(8, d.delegator), Frame(9, LittleEndian(d.atMs, 8))]
  }

  lemma ScopeHead(a: seq<ResourceScope>, x: seq<Frame>)
    ensures a == [] ==> ScopeFrames(a) + x == x
    ensures a != [] ==> ScopeFrames(a) + x == OneScope(a[0]) + (ScopeFrames(a[1..]) + x)
    ensures a != [] ==> (ScopeFrames(a) + x)[0].tag == 4
  {
  }

  lemma DelegationHead(a: seq<DelegationStep>, x: seq<Frame>)
    ensures a == [] ==> DelegationFrames(a) + x == x
    ensures a != [] ==> DelegationFrames(a) + x == OneDelegation(a[0]) + (DelegationFrames(a[1..]) + x)
    ensures a != [] ==> (DelegationFrames(a) + x)[0].tag == 8
  {
    hide LittleEndian;
  }

  lemma OneScopeInjective(a: ResourceScope, b: ResourceScope)
    requires OneScope(a) == OneScope(b)
    ensures a == b
  {
    assert OneScope(a)[0] == OneScope(b)[0] && OneScope(a)[1] == OneScope(b)[1];
    assert OneScope(a)[1].bytes[0] == OneScope(b)[1].bytes[0] && OneScope(a)[1].bytes[1] == OneScope(b)[1].bytes[1];
  }

  lemma OneDelegationInjective(a: DelegationStep, b: DelegationStep)
    requires OneDelegation(a) == OneDelegation(b) && a.atMs < U64_SIZE && b.atMs < U64_SIZE
    ensures a == b
  {
    assert OneDelegation(a)[0] == OneDelegation(b)[0] && OneDelegation(a)[1] == OneDelegation(b)[1];
    U64Injective(a.atMs, b.atMs);
  }

  lemma {:induction false} ScopesDecode(a: seq<ResourceScope>, b: seq<ResourceScope>, x: seq<Frame>, y: seq<Frame>)
    requires ScopeFrames(a) + x == ScopeFrames(b) + y
    requires x != [] && y != [] && x[0].tag != 4 && y[0].tag != 4
    ensures a == b && x == y
  {
    ScopeHead(a, x);
    ScopeHead(b, y);
    if a != [] && b != [] {
      hide ScopeFrames;
      SplitEqual(OneScope(a[0]), OneScope(b[0]), ScopeFrames(a[1..]) + x, ScopeFrames(b[1..]) + y);
      OneScopeInjective(a[0], b[0]);
      ScopesDecode(a[1..], b[1..], x, y);
      assert a == [a[0]] + a[1..] && b == [b[0]] + b[1..];
    }
  }

  lemma {:induction false} DelegationsDecode(a: seq<DelegationStep>, b: seq<DelegationStep>, x: seq<Frame>,
                                             y: seq<Frame>)
    requires DelegationFrames(a) + x == DelegationFrames(b) + y
    requires x != [] && y != [] && x[0].tag != 8 && y[0].tag != 8
    requires forall i :: 0 <= i < |a| ==> a[i].atMs < U64_SIZE
    requires forall i :: 0 <= i < |b| ==> b[i].atMs < U64_SIZE
    ensures a == b && x == y
  {
    DelegationHead(a, x);
    DelegationHead(b, y);
    if a != [] && b != [] {
      hide DelegationFrames;
      SplitEqual(OneDelegation(a[0]), OneDelegation(b[0]), DelegationFrames(a[1..]) + x, DelegationFrames(b[1..]) + y);
      OneDelegationInjective(a[0], b[0]);
      DelegationsDecode(a[1..], b[1..], x, y);
      assert a == [a[0]] + a[1..] && b == [b[0]] + b[1..];
    }
  }

  lemma PolicyNameInjective(a: PolicyProfile, b: PolicyProfile)
    requires PolicyName(a) == PolicyName(b)
    ensures a == b
  {
    assert |"ReadOnly"| == 8 && |"Guided"| == 6 && |"Operator"| == 8 && |"Maintainer"| == 10;
    assert "ReadOnly"[0] == 'R' && "Operator"[0] == 'O';
  }

  /** The signing preimage is uniquely decodable: two grants are signed over the same bytes
      exactly when they agree on everything but the signature, the revoked flag included. */
  lemma PreimageDecodes(a: CapabilityGrant, b: CapabilityGrant)
    requires Representable(a) && Representable(b)
    ensures Preimage(a) == Preimage(b) <==> a == b.(signature := a.signature)
  {
    if Preimage(a) == Preimage(b) {
      EncodeInjective(GrantFrames(a), GrantFrames(b));
      FramesDecode(a, b);
    }
  }

  lemma FramesDecode(a: CapabilityGrant, b: CapabilityGrant)
    requires Representable(a) && Representable(b) && GrantFrames(a) == GrantFrames(b)
    ensures a == b.(signature := a.signature)
  {
    hide Ascii, Sized, LittleEndian;
    var p, q := [Frame(0, Ascii("mem-authz:grant:v1")), Frame(1, a.id), Frame(2, a.issuer), Frame(3, a.recipient)],
                [Frame(0, Ascii("mem-authz:grant:v1")), Frame(1, b.id), Frame(2, b.issuer), Frame(3, b.recipient)];
    var p', q' := [Frame(6, Ascii(PolicyName(a.policy))), Frame(7, LittleEndian(a.expiresAtMs, 8))],
                  [Frame(6, Ascii(PolicyName(b.policy))), Frame(7, LittleEndian(b.expiresAtMs, 8))];
    var x := DelegationFrames(a.delegationChain) + LastFrames(a);
    var y := DelegationFrames(b.delegationChain) + LastFrames(b);
    SplitEqual(p, q, ScopeFrames(a.allowedResources) + (p' + x), ScopeFrames(b.allowedResources) + (q' + y));
    assert p[1] == q[1] && p[2] == q[2] && p[3] == q[3];
    assert (p' + x)[0] == p'[0] && (q' + y)[0] == q'[0];
    ScopesDecode(a.allowedResources, b.allowedResources, p' + x, q' + y);
    SplitEqual(p', q', x, y);
    assert p'[0] == q'[0] && p'[1] == q'[1];
    AsciiInjective(PolicyName(a.policy), PolicyName(b.policy));
    PolicyNameInjective(a.policy, b.policy);
    U64Injective(a.expiresAtMs, b.expiresAtMs);
    assert LastFrames(a)[0].tag == 10 && LastFrames(b)[0].tag == 10;
    DelegationsDecode(a.delegationChain, b.delegationChain, LastFrames(a), LastFrames(b));
    assert LastFrames(a)[0] == LastFrames(b)[0] && |LastFrames(a)| == |LastFrames(b)|;
  }

  method PushScopes(buf0: Bytes, ghost fs: seq<Frame>, rs: seq<ResourceScope>) returns (buf: Bytes)
    requires buf0 == Encode(fs)
    ensures buf == Encode(fs + ScopeFrames(rs))
  {
    hide Encode, Feed;
    buf := buf0;
    ghost var done := fs;
    for i := 0 to |rs|
      invariant buf == Encode(done) && done + ScopeFrames(rs[i..]) == fs + ScopeFrames(rs)
    {
      ScopeHead(rs[i..], []);
      assert rs[i..][1..] == rs[i + 1..];
      ghost var before := done;
      buf, done := Push(buf, done, Frame(4, rs[i].resourceId));
      buf, done := Push(buf, done, Frame(5, [Flag(rs[i].canRead), Flag(rs[i].canWrite)]));
      assert done + ScopeFrames(rs[i + 1..]) == before + ScopeFrames(rs[i..]);
    }
    assert done == fs + ScopeFrames(rs);
  }

  method PushDelegations(buf0: Bytes, ghost fs: seq<Frame>, ds: seq<DelegationStep>) returns (buf: Bytes)
    requires buf0 == Encode(fs)
    ensures buf == Encode(fs + DelegationFrames(ds))
  {
    hide Encode, Feed, LittleEndian;
    buf := buf0;
    ghost var done := fs;
    for i := 0 to |ds|
      invariant buf == Encode(done) && done + DelegationFrames(ds[i..]) == fs + DelegationFrames(ds)
    {
      DelegationHead(ds[i..], []);
      assert ds[i..][1..] == ds[i + 1..];
      ghost var before := done;
      buf, done := Push(buf, done, Frame(8, ds[i].delegator));
      buf, done := Push(buf, done, Frame(9, LittleEndian(ds[i].atMs, 8)));
      assert done + DelegationFrames(ds[i + 1..]) == before + DelegationFrames(ds[i..]);
    }
    assert done == fs + DelegationFrames(ds);
  }

  /** The buffer as the source fills it, loop by loop. */
  method SigningPreimage(g: CapabilityGrant) returns (buf: Bytes)
    ensures buf == Preimage(g)
  {
    hide Encode, Feed, Ascii, LittleEndian, ScopeFrames, DelegationFrames;
    ghost var fs: seq<Frame>;
    buf, fs := PushHead(g);
    buf := PushScopes(buf, fs, g.allowedResources);
    fs := fs + ScopeFrames(g.allowedResources);
    buf, fs := Push(buf, fs, Frame(6, Ascii(PolicyName(g.policy))));
    buf, fs := Push(buf, fs, Frame(7, LittleEndian(g.expiresAtMs, 8)));
    buf := PushDelegations(buf, fs, g.delegationChain);
    fs := fs + DelegationFrames(g.delegationChain);
    buf, fs := Push(buf, fs, Frame(10, g.issuerPubkey));
    if g.revoked {
      buf, fs := Push(buf, fs, Frame(11, Ascii("revoked")));
    }
    FramesInOrder(g, fs);
  }

  lemma FramesInOrder(g: CapabilityGrant, fs: seq<Frame>)
    requires fs == [Frame(0, Ascii("mem-authz:grant:v1")), Frame(1, g.id), Frame(2, g.issuer), Frame(3, g.recipient)]
      + ScopeFrames(g.allowedResources) + [Frame(6, Ascii(PolicyName(g.policy)))]
      + [Frame(7, LittleEndian(g.expiresAtMs, 8))]
      + DelegationFrames(g.delegationChain) + LastFrames(g)
    ensures fs == GrantFrames(g)
  {
    hide Ascii, LittleEndian, ScopeFrames, DelegationFrames, LastFrames;
  }

  method PushHead(g: CapabilityGrant) returns (buf: Bytes, ghost fs: seq<Frame>)
    ensures fs == [Frame(0, Ascii("mem-authz:grant:v1")), Frame(1, g.id), Frame(2, g.issuer), Frame(3, g.recipient)]
    ensures buf == Encode(fs)
  {
    hide Encode, Feed, Ascii;
    EncodeNothing();
    buf, fs := [], [];
    buf, fs := Push(buf, fs, Frame(0, Ascii("mem-authz:grant:v1")));
    buf, fs := Push(buf, fs, Frame(1, g.id));
    buf, fs := Push(buf, fs, Frame(2, g.issuer));
    buf, fs := Push(buf, fs, Frame(3, g.recipient));
  }

  lemma EncodeNothing()
    ensures Encode([]) == []
  {
  }

  method Push(buf: Bytes, ghost fs: seq<Frame>, f: Frame) returns (buf': Bytes, ghost fs': seq<Frame>)
    requires buf == Encode(fs)
    ensures fs' == fs + [f] && buf' == Encode(fs') && buf' == buf + Feed(f)
  {
    buf', fs' := buf + Feed(f), fs + [f];
    EncodeAppend(fs, f);
  }

  // ---- signing and checking ----

  /** An ideal signature scheme: what a key signs, its public half verifies. */
  datatype Scheme = Scheme(
    publicKey: Bytes -> Bytes, sign: (Bytes, Bytes) -> Bytes, verify: (Bytes, Bytes, Bytes) -> bool)

  ghost predicate Ideal(s: Scheme) {
    forall sk, msg ::
      |s.publicKey(sk)| == 32 && |s.sign(sk, msg)| == 64 && s.verify(s.publicKey(sk), msg, s.sign(sk, msg))
  }

  function SignWith(s: Scheme, g: CapabilityGrant, sk: Bytes): CapabilityGrant {
    var keyed := g.(issuerPubkey := s.publicKey(sk));
    keyed.(signature := s.sign(sk, Preimage(keyed)))
  }

  function VerifySignature(s: Scheme, g: CapabilityGrant): Option<AuthzError> {
    if g.signature == [] || g.issuerPubkey == [] then Some(Unsigned)
    else if |g.issuerPubkey| != 32 || |g.signature| != 64 then Some(BadSignature)
    else if s.verify(g.issuerPubkey, Preimage(g), g.signature) then None
    else Some(BadSignature)
  }

  lemma SignedVerifies(s: Scheme, g: CapabilityGrant, sk: Bytes)
    requires Ideal(s)
    ensures VerifySignature(s, SignWith(s, g, sk)).None?
  {
    hide Encode;
    var keyed := g.(issuerPubkey := s.publicKey(sk));
    assert GrantFrames(SignWith(s, g, sk)) == GrantFrames(keyed);
    assert |s.sign(sk, Preimage(keyed))| == 64;
  }

  const STAR: Bytes := Ascii("*")

  predicate ResourceMatches(scope: Bytes, requested: Bytes) { scope == STAR || scope == requested }

  function FirstScope(rs: seq<ResourceScope>, requested: Bytes): Option<ResourceScope> {
    if rs == [] then None
    else if ResourceMatches(rs[0].resourceId, requested) then Some(rs[0])
    else FirstScope(rs[1..], requested)
  }

  predicate ScopeAllows(r: ResourceScope, op: Op) { match op case Read => r.canRead case Write => r.canWrite }

  function Check(s: Scheme, g: CapabilityGrant, resource: Bytes, op: Op, now: nat): Option<AuthzError> {
    if g.revoked then Some(Revoked)
    else if now >= g.expiresAtMs then Some(Expired)
    else if VerifySignature(s, g).Some? then VerifySignature(s, g)
    else match FirstScope(g.allowedResources, resource)
      case None => Some(ResourceDenied)
      case Some(r) => if ScopeAllows(r, op) then None else Some(OperationDenied)
  }

  ghost predicate Covers(r: ResourceScope, requested: Bytes) {
    r.resourceId == Ascii("*") || r.resourceId == requested
  }

  /** Scope `i` decides: it is the first wildcard or the first to name the resource. */
  ghost predicate Deciding(rs: seq<ResourceScope>, requested: Bytes, i: int) {
    0 <= i < |rs| && Covers(rs[i], requested) && forall j :: 0 <= j < i ==> !Covers(rs[j], requested)
  }

  lemma {:induction false} FirstDeciding(rs: seq<ResourceScope>, requested: Bytes)
    ensures match FirstScope(rs, requested)
      case None => forall i :: 0 <= i < |rs| ==> !Covers(rs[i], requested)
      case Some(r) => exists i :: Deciding(rs, requested, i) && r == rs[i]
  {
    if rs != [] && !ResourceMatches(rs[0].resourceId, requested) {
      var rest := rs[1..];
      FirstDeciding(rest, requested);
      assert forall i :: 1 <= i < |rs| ==> rs[i] == rest[i - 1];
      if FirstScope(rest, requested).Some? {
        var k :| Deciding(rest, requested, k) && FirstScope(rest, requested).value == rest[k];
        assert Deciding(rs, requested, k + 1);
      }
    } else if rs != [] {
      assert Deciding(rs, requested, 0);
    }
  }

  /** Some scope decides about the resource, and it allows the operation. */
  ghost predicate ScopesAllow(g: CapabilityGrant, resource: Bytes, op: Op) {
    exists i :: Deciding(g.allowedResources, resource, i) &&
      if op == Read then g.allowedResources[i].canRead else g.allowedResources[i].canWrite
  }

  lemma AllowsIfFirst(g: CapabilityGrant, resource: Bytes, op: Op)
    ensures var first := FirstScope(g.allowedResources, resource);
      ScopesAllow(g, resource, op) <==> first.Some? && ScopeAllows(first.value, op)
  {
    FirstDeciding(g.allowedResources, resource);
  }

  /** Each verdict with its exact condition: revoked before expired before unsigned before badly
      signed before a resource no scope names before an operation its deciding scope withholds. */
  lemma CheckSays(s: Scheme, g: CapabilityGrant, resource: Bytes, op: Op, now: nat)
    ensures var verdict := Check(s, g, resource, op, now);
      var current := !g.revoked && now < g.expiresAtMs;
      var signed := g.signature != [] && g.issuerPubkey != [];
      var holds := |g.issuerPubkey| == 32 && |g.signature| == 64
                   && s.verify(g.issuerPubkey, Preimage(g), g.signature);
      var named := exists i :: 0 <= i < |g.allowedResources| && Covers(g.allowedResources[i], resource);
      && (verdict == Some(Revoked) <==> g.revoked)
      && (verdict == Some(Expired) <==> !g.revoked && g.expiresAtMs <= now)
      && (verdict == Some(Unsigned) <==> current && !signed)
      && (verdict == Some(BadSignature) <==> current && signed && !holds)
      && (verdict == Some(ResourceDenied) <==> current && signed && holds && !named)
      && (verdict == Some(OperationDenied) <==>
            current && signed && holds && named && !ScopesAllow(g, resource, op))
      && (verdict == None <==> current && signed && holds && ScopesAllow(g, resource, op))
  {
    hide Preimage, ScopesAllow, Covers;
    AllowsIfFirst(g, resource, op);
    FirstNames(g.allowedResources, resource);
  }

  lemma FirstNames(rs: seq<ResourceScope>, resource: Bytes)
    ensures FirstScope(rs, resource).Some? <==> exists i :: 0 <= i < |rs| && Covers(rs[i], resource)
  {
    FirstDeciding(rs, resource);
  }
}
