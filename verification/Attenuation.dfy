/** Minting a grant from a membership (crates/mem-gateway/src/auth.rs) and narrowing it to a
    connect token (crates/mem-gateway/src/http.rs). */
module Attenuation {
  import opened Sorting
  import opened Framing
  import opened Text
  import opened Grant

  function RepoResource(tenant: Bytes): Bytes { Ascii("repo:") + tenant + Ascii("/memory") }

  // ---- minting ----

  datatype Role = OrgOwner | Admin | Member | Reader

  datatype Membership = Membership(sub: Bytes, org: Bytes, role: Role, scopes: seq<ResourceScope>)

  function PolicyFor(r: Role): PolicyProfile {
    match r case OrgOwner => Maintainer case Admin => Operator case Member => Guided case Reader => ReadOnly
  }

  function NormalizeResource(id: Bytes): Bytes {
    if id == STAR || HasPrefix(id, Ascii("repo:")) then id else RepoResource(id)
  }

  function ResourcesFor(m: Membership): seq<ResourceScope> {
    match m.role
    case OrgOwner => [ResourceScope(STAR, true, true)]
    case Admin => [ResourceScope(STAR, true, true)]
    case Member => Normalized(m.scopes, true)
    case Reader => Normalized(m.scopes, false)
  }

  /** The membership's own scopes; write is forced off for a reader. */
  function Normalized(rs: seq<ResourceScope>, writes: bool): seq<ResourceScope> {
    seq(|rs|, i requires 0 <= i < |rs| =>
      ResourceScope(NormalizeResource(rs[i].resourceId), rs[i].canRead, writes && rs[i].canWrite))
  }

  /** The grant before it is signed. `grantId` stands for the "gw:org:now" text, which nothing here
      reads. */
  function Draft(issuer: Bytes, grantId: Bytes, m: Membership, now: nat, ttl: nat): CapabilityGrant {
    CapabilityGrant(grantId, issuer, m.sub, ResourcesFor(m), PolicyFor(m.role), SatAdd(now, ttl), false, [], [], [])
  }

  function MintGrant(s: Scheme, sk: Bytes, issuer: Bytes, grantId: Bytes, m: Membership, now: nat,
                     ttl: nat): CapabilityGrant {
    SignWith(s, Draft(issuer, grantId, m, now, ttl), sk)
  }

  /** What a membership's scope names: everything, a resource by its full id, or a tenant. */
  ghost predicate Names(id: Bytes, resource: Bytes) {
    || id == Ascii("*")
    || (Ascii("repo:") <= id && resource == id)
    || (!(Ascii("repo:") <= id) && resource == Ascii("repo:") + id + Ascii("/memory"))
  }

  lemma NamesMatches(id: Bytes, resource: Bytes)
    ensures ResourceMatches(NormalizeResource(id), resource) <==> Names(id, resource)
  {
    PrefixIs(id, Ascii("repo:"));
    if id != STAR && !HasPrefix(id, Ascii("repo:")) { RepoIsNotStar(id); }
    assert |Ascii("repo:")| == 5 && |STAR| == 1;
  }

  /** Scope `i` of a membership decides about a resource: it is the first to name it. */
  ghost predicate Decides(scopes: seq<ResourceScope>, resource: Bytes, i: int) {
    && 0 <= i < |scopes| && Names(scopes[i].resourceId, resource)
    && forall j :: 0 <= j < i ==> !Names(scopes[j].resourceId, resource)
  }

  /** The whole of a minted grant. */
  lemma MintedFields(s: Scheme, sk: Bytes, issuer: Bytes, grantId: Bytes, m: Membership, now: nat, ttl: nat)
    ensures var g := MintGrant(s, sk, issuer, grantId, m, now, ttl);
      && g.id == grantId && g.issuer == issuer && g.recipient == m.sub && g.delegationChain == [] && !g.revoked
      && g.expiresAtMs == (if now + ttl <= U64_MAX then now + ttl else U64_MAX)
      && g.issuerPubkey == s.publicKey(sk) && g.signature == s.sign(sk, Preimage(g.(signature := [])))
      && (g.policy == match m.role
                      case OrgOwner => Maintainer case Admin => Operator case Member => Guided case Reader => ReadOnly)
  {
    hide Encode;
  }

  /** What a minted grant allows, in terms of the membership: until it expires owners and admins
      may do everything, a member what the deciding scope says, and a reader may read where the
      deciding scope says so and never write. */
  lemma MintedAuthority(s: Scheme, sk: Bytes, issuer: Bytes, grantId: Bytes, m: Membership, now: nat, ttl: nat,
                        resource: Bytes, op: Op, at: nat)
    requires Ideal(s)
    ensures var g := MintGrant(s, sk, issuer, grantId, m, now, ttl);
      && VerifySignature(s, g).None? && !g.revoked
      && (Check(s, g, resource, op, at).None? <==>
            at < SatAdd(now, ttl) &&
            match m.role
            case OrgOwner => true
            case Admin => true
            case Member =>
              exists i :: Decides(m.scopes, resource, i)
                          && (if op == Read then m.scopes[i].canRead else m.scopes[i].canWrite)
            case Reader => op == Read && exists i :: Decides(m.scopes, resource, i) && m.scopes[i].canRead)
  {
    hide VerifySignature, NormalizeResource;
    SignedVerifies(s, Draft(issuer, grantId, m, now, ttl), sk);
    if m.role == Member || m.role == Reader { FirstDecides(m.scopes, m.role == Member, resource); }
  }

  lemma {:induction false} FirstDecides(scopes: seq<ResourceScope>, writes: bool, requested: Bytes)
    ensures match FirstScope(Normalized(scopes, writes), requested)
      case None => forall i :: !Decides(scopes, requested, i)
      case Some(r) => exists i :: Decides(scopes, requested, i) && r.canRead == scopes[i].canRead
                                  && r.canWrite == (writes && scopes[i].canWrite)
    ensures forall i, j :: Decides(scopes, requested, i) && Decides(scopes, requested, j) ==> i == j
  {
    hide NormalizeResource, Names, ResourceMatches;
    if scopes != [] {
      var rest := scopes[1..];
      NamesMatches(scopes[0].resourceId, requested);
      assert Normalized(scopes, writes)[1..] == Normalized(rest, writes);
      if Names(scopes[0].resourceId, requested) {
        assert Decides(scopes, requested, 0);
      } else {
        FirstDecides(rest, writes, requested);
        forall i ensures Decides(scopes, requested, i) <==> Decides(rest, requested, i - 1) {
          assert i >= 1 && i < |scopes| ==> scopes[i] == rest[i - 1];
          assert forall j :: 0 <= j < |rest| ==> rest[j] == scopes[j + 1];
        }
        if FirstScope(Normalized(rest, writes), requested).Some? {
          var r := FirstScope(Normalized(rest, writes), requested).value;
          var k :| Decides(rest, requested, k) && r.canRead == rest[k].canRead
                   && r.canWrite == (writes && rest[k].canWrite);
          assert Decides(scopes, requested, k + 1);
        }
      }
    }
  }

  lemma {:induction false} FirstIsMember(rs: seq<ResourceScope>, requested: Bytes)
    ensures match FirstScope(rs, requested)
      case None => forall i :: 0 <= i < |rs| ==> !ResourceMatches(rs[i].resourceId, requested)
      case Some(r) => r in rs && ResourceMatches(r.resourceId, requested)
  {
    if rs != [] { FirstIsMember(rs[1..], requested); }
  }

  // ---- attenuation ----

  datatype ConnectClaims = ConnectClaims(scope: Option<string>, tenants: Option<seq<Bytes>>)

  /** The token names a write capability among its comma-separated scopes. */
  predicate TokenWrites(c: ConnectClaims) {
    c.scope.Some? &&
    var pieces := Split(c.scope.value, ',');
    exists i :: 0 <= i < |pieces| && (Trim(pieces[i]) == "write" || Trim(pieces[i]) == "propose")
  }

  /** One of the comma-separated parts of `text` is `word` with nothing but whitespace around it. */
  ghost predicate Lists(text: string, word: string) {
    exists a, p, b :: ListsAt(text, word, a, p, b)
  }

  ghost predicate ListsAt(text: string, word: string, a: int, p: int, b: int) {
    && 0 <= a <= p && p + |word| <= b <= |text| && text[p..p + |word|] == word
    && (a == 0 || text[a - 1] == ',') && (b == |text| || text[b] == ',')
    && forall i :: a <= i < p || p + |word| <= i < b ==> IsWhitespace(text[i])
  }

  /** A word that trimming leaves alone. */
  ghost predicate Solid(word: string) {
    word != [] && forall i :: 0 <= i < |word| ==> !IsWhitespace(word[i]) && word[i] != ','
  }

  lemma TrimsTo(piece: string, word: string, p: nat)
    requires Solid(word) && p + |word| <= |piece| && piece[p..p + |word|] == word
    requires forall i :: 0 <= i < p || p + |word| <= i < |piece| ==> IsWhitespace(piece[i])
    ensures Trim(piece) == word
  {
    var a, b := TrimSpec(piece);
    var cut := piece[p..p + |word|];
    assert cut[0] == piece[p] && cut[|word| - 1] == piece[p + |word| - 1];
    assert !IsWhitespace(piece[p]) && !IsWhitespace(piece[p + |word| - 1]);
    assert a == p && b == p + |word|;
  }

  ghost predicate PieceTrimsTo(text: string, word: string, k: int) {
    0 <= k < |Split(text, ',')| && Trim(Split(text, ',')[k]) == word
  }

  lemma ListedIsPiece(text: string, word: string, a: int, p: int, b: int) returns (k: nat)
    requires Solid(word) && ListsAt(text, word, a, p, b)
    ensures PieceTrimsTo(text, word, k)
  {
    hide IsWhitespace, Trim, Split;
    forall i | a <= i < b ensures text[i] != ',' {
      if p <= i < p + |word| { assert text[i] == text[p..p + |word|][i - p]; } else { CommaIsNoBlank(text[i]); }
    }
    k := BetweenIsPiece(text, ',', a, b);
    var piece := text[a..b];
    Within(text, a, b, p - a, p - a + |word|);
    assert forall i :: 0 <= i < |piece| ==> piece[i] == text[a + i];
    TrimsTo(piece, word, p - a);
  }

  lemma Within(s: string, a: nat, b: nat, x: nat, y: nat)
    requires a <= b <= |s| && x <= y <= b - a
    ensures s[a..b][x..y] == s[a + x..a + y]
  {
    var l, r := s[a..b][x..y], s[a + x..a + y];
    assert |l| == |r| && forall i :: 0 <= i < |l| ==> l[i] == r[i];
  }

  lemma CommaIsNoBlank(c: char)
    requires IsWhitespace(c)
    ensures c != ','
  {
  }

  lemma PieceIsListed(text: string, word: string, k: int)
    requires PieceTrimsTo(text, word, k)
    ensures Lists(text, word)
  {
    hide IsWhitespace, Trim, Split;
    var a, b := PieceIsBetween(text, ',', k);
    var piece := text[a..b];
    var x, y := TrimSpec(piece);
    Within(text, a, b, x, y);
    forall i | a <= i < a + x || a + y <= i < b ensures IsWhitespace(text[i]) { assert piece[i - a] == text[i]; }
    assert ListsAt(text, word, a, a + x, b);
  }

  lemma ListsIsPiece(text: string, word: string)
    requires Solid(word)
    ensures Lists(text, word) <==> exists k :: PieceTrimsTo(text, word, k)
  {
    hide PieceTrimsTo, Solid, ListsAt;
    if Lists(text, word) {
      var a, p, b :| ListsAt(text, word, a, p, b);
      var k := ListedIsPiece(text, word, a, p, b);
    }
    if k :| PieceTrimsTo(text, word, k) { PieceIsListed(text, word, k); }
  }

  ghost predicate ListsWrite(c: ConnectClaims) {
    c.scope.Some? && (Lists(c.scope.value, "write") || Lists(c.scope.value, "propose"))
  }

  lemma WritesIfListed(c: ConnectClaims)
    ensures TokenWrites(c) <==> ListsWrite(c)
  {
    hide Lists, Trim, Split;
    assert Solid("write") && Solid("propose");
    if c.scope.Some? {
      var text := c.scope.value;
      ListsIsPiece(text, "write");
      ListsIsPiece(text, "propose");
      if k :| 0 <= k < |Split(text, ',')| && Trim(Split(text, ',')[k]) in ["write", "propose"] {
        assert PieceTrimsTo(text, "write", k) || PieceTrimsTo(text, "propose", k);
      }
    }
  }

  function TenantScope(s: Scheme, g: CapabilityGrant, tenant: Bytes, writes: bool, now: nat): ResourceScope {
    var rid := RepoResource(tenant);
    ResourceScope(rid, Check(s, g, rid, Read, now).None?, writes && Check(s, g, rid, Write, now).None?)
  }

  function GateWrite(r: ResourceScope, writes: bool): ResourceScope { r.(canWrite := r.canWrite && writes) }

  function Narrowed(s: Scheme, g: CapabilityGrant, c: ConnectClaims, now: nat): seq<ResourceScope> {
    match c.tenants
    case Some(ts) => seq(|ts|, i requires 0 <= i < |ts| => TenantScope(s, g, ts[i], TokenWrites(c), now))
    case None =>
      seq(|g.allowedResources|, i requires 0 <= i < |g.allowedResources| =>
        GateWrite(g.allowedResources[i], TokenWrites(c)))
  }

  /** The narrowed grant before it is signed again. */
  function NarrowedGrant(s: Scheme, g: CapabilityGrant, c: ConnectClaims, now: nat): CapabilityGrant {
    g.(allowedResources := Narrowed(s, g, c, now), policy := if TokenWrites(c) then g.policy else ReadOnly)
  }

  function Attenuate(s: Scheme, g: CapabilityGrant, c: ConnectClaims, sk: Bytes, now: nat): CapabilityGrant {
    SignWith(s, NarrowedGrant(s, g, c, now), sk)
  }

  /** What the token itself allows: writing only if it lists "write" or "propose", and no other
      tenants than it names. */
  ghost predicate TokenAllows(c: ConnectClaims, resource: Bytes, op: Op) {
    && (op == Write ==> ListsWrite(c))
    && (c.tenants.Some? ==>
          exists t :: t in c.tenants.value && resource == Ascii("repo:") + t + Ascii("/memory"))
  }

  /** The whole of a narrowed grant, but for its scopes: a token that lists no write capability
      leaves a read-only policy, and nothing else changes. */
  lemma AttenuatedFields(s: Scheme, g: CapabilityGrant, c: ConnectClaims, sk: Bytes, made: nat)
    ensures var narrow := Attenuate(s, g, c, sk, made);
      && narrow.id == g.id && narrow.issuer == g.issuer && narrow.recipient == g.recipient
      && narrow.expiresAtMs == g.expiresAtMs && narrow.revoked == g.revoked
      && narrow.delegationChain == g.delegationChain && narrow.issuerPubkey == s.publicKey(sk)
      && narrow.policy == if ListsWrite(c) then g.policy else ReadOnly
  {
    hide Preimage, ListsWrite, TokenWrites, Narrowed;
    WritesIfListed(c);
  }

  lemma {:induction false} GatedFirst(rs: seq<ResourceScope>, gated: seq<ResourceScope>, writes: bool, requested: Bytes)
    requires |gated| == |rs| && forall i :: 0 <= i < |rs| ==> gated[i] == GateWrite(rs[i], writes)
    ensures FirstScope(gated, requested) ==
      match FirstScope(rs, requested) case None => None case Some(r) => Some(GateWrite(r, writes))
  {
    if rs != [] { GatedFirst(rs[1..], gated[1..], writes, requested); }
  }

  lemma RepoIsNotStar(t: Bytes)
    ensures RepoResource(t) != STAR
  {
    assert |Ascii("repo:")| == 5 && |STAR| == 1;
  }

  /** Scopes that all name a tenant match exactly the tenants' resources. */
  lemma TenantFirst(s: Scheme, g: CapabilityGrant, ts: seq<Bytes>, writes: bool, now: nat, requested: Bytes)
    ensures var rs := seq(|ts|, i requires 0 <= i < |ts| => TenantScope(s, g, ts[i], writes, now));
      match FirstScope(rs, requested)
      case None => forall t :: t in ts ==> requested != RepoResource(t)
      case Some(r) => (exists t :: t in ts && requested == RepoResource(t))
                      && r.canRead == Check(s, g, requested, Read, now).None?
                      && r.canWrite == (writes && Check(s, g, requested, Write, now).None?)
  {
    hide Check;
    var rs := seq(|ts|, i requires 0 <= i < |ts| => TenantScope(s, g, ts[i], writes, now));
    FirstIsMember(rs, requested);
    match FirstScope(rs, requested) {
      case None =>
        forall t | t in ts ensures requested != RepoResource(t) {
          var i :| 0 <= i < |ts| && ts[i] == t;
          assert !ResourceMatches(rs[i].resourceId, requested);
        }
      case Some(r) =>
        var i :| 0 <= i < |rs| && rs[i] == r;
        RepoIsNotStar(ts[i]);
        assert ts[i] in ts;
    }
  }

  /** Attenuation is intersection: a grant that verifies, narrowed to a token, allows an operation
      at any later time exactly when the grant allows it and the token does. */
  lemma AttenuationIntersects(s: Scheme, g: CapabilityGrant, c: ConnectClaims, sk: Bytes, made: nat, resource: Bytes,
                              op: Op, now: nat)
    requires Ideal(s) && VerifySignature(s, g).None? && made <= now
    ensures Check(s, Attenuate(s, g, c, sk, made), resource, op, now).None?
       <==> Check(s, g, resource, op, now).None? && TokenAllows(c, resource, op)
  {
    hide VerifySignature, TokenWrites, Attenuate, ScopesAllow;
    AllowsIfFirst(g, resource, op);
    AttenuatedAllows(s, g, c, sk, made, resource, op, now);
  }

  lemma SigningKeeps(s: Scheme, g: CapabilityGrant, sk: Bytes)
    ensures var signed := SignWith(s, g, sk);
      && signed.revoked == g.revoked && signed.expiresAtMs == g.expiresAtMs
      && signed.allowedResources == g.allowedResources
  {
    hide Preimage;
  }

  /** Attenuating again only shrinks authority, and the order of two tokens does not matter. */
  lemma AttenuationComposes(s: Scheme, g: CapabilityGrant, c: ConnectClaims, d: ConnectClaims, sk: Bytes, t1: nat,
                            t2: nat, resource: Bytes, op: Op, now: nat)
    requires Ideal(s) && VerifySignature(s, g).None? && t1 <= t2 <= now
    ensures var cd := Attenuate(s, Attenuate(s, g, c, sk, t1), d, sk, t2);
      var dc := Attenuate(s, Attenuate(s, g, d, sk, t1), c, sk, t2);
      && (Check(s, cd, resource, op, now).None? <==> Check(s, dc, resource, op, now).None?)
      && (Check(s, cd, resource, op, now).None? <==>
            Check(s, g, resource, op, now).None? && TokenAllows(c, resource, op) && TokenAllows(d, resource, op))
      && (Check(s, cd, resource, op, now).None? ==> Check(s, Attenuate(s, g, c, sk, t1), resource, op, now).None?)
  {
    hide Check, TokenAllows;
    AttenuatedVerifies(s, g, c, sk, t1);
    AttenuatedVerifies(s, g, d, sk, t1);
    AttenuationIntersects(s, g, c, sk, t1, resource, op, now);
    AttenuationIntersects(s, g, d, sk, t1, resource, op, now);
    AttenuationIntersects(s, Attenuate(s, g, c, sk, t1), d, sk, t2, resource, op, now);
    AttenuationIntersects(s, Attenuate(s, g, d, sk, t1), c, sk, t2, resource, op, now);
  }

  lemma AttenuatedVerifies(s: Scheme, g: CapabilityGrant, c: ConnectClaims, sk: Bytes, made: nat)
    requires Ideal(s)
    ensures VerifySignature(s, Attenuate(s, g, c, sk, made)).None?
  {
    hide VerifySignature;
    SignedVerifies(s, NarrowedGrant(s, g, c, made), sk);
  }

  /** What an attenuated grant allows, whether or not the original verifies: with tenants named,
      what the original allows of them; without, what its deciding scope allows. */
  lemma AttenuatedAllows(s: Scheme, g: CapabilityGrant, c: ConnectClaims, sk: Bytes, made: nat, resource: Bytes,
                         op: Op, now: nat)
    requires Ideal(s) && made <= now
    ensures Check(s, Attenuate(s, g, c, sk, made), resource, op, now).None? <==>
      && !g.revoked && now < g.expiresAtMs && TokenAllows(c, resource, op)
      && (c.tenants.Some? ==> VerifySignature(s, g).None?)
      && ScopesAllow(g, resource, op)
  {
    hide VerifySignature, TokenWrites, SignWith, ListsWrite, ScopesAllow;
    WritesIfListed(c);
    AllowsIfFirst(g, resource, op);
    var narrowed := NarrowedGrant(s, g, c, made);
    SignedVerifies(s, narrowed, sk);
    SigningKeeps(s, narrowed, sk);
    match c.tenants {
      case Some(ts) => TenantFirst(s, g, ts, TokenWrites(c), made, resource);
      case None => GatedFirst(g.allowedResources, Narrowed(s, g, c, made), TokenWrites(c), resource);
    }
  }

  /** Exactly when attenuation is intersection: always, except that without named tenants the
      fresh signature revives a grant that did not verify but is neither revoked nor expired,
      for whatever its scopes and the token allow. Minted grants always verify. */
  lemma IntersectionExactly(s: Scheme, g: CapabilityGrant, c: ConnectClaims, sk: Bytes, made: nat, resource: Bytes,
                            op: Op, now: nat)
    requires Ideal(s) && made <= now
    ensures
      (Check(s, Attenuate(s, g, c, sk, made), resource, op, now).None? <==>
         Check(s, g, resource, op, now).None? && TokenAllows(c, resource, op))
      <==>
      !(VerifySignature(s, g).Some? && c.tenants.None? && !g.revoked && now < g.expiresAtMs
        && ScopesAllow(g, resource, op) && (op == Write ==> ListsWrite(c)))
  {
    hide VerifySignature, TokenWrites, Attenuate, ScopesAllow;
    AllowsIfFirst(g, resource, op);
    AttenuatedAllows(s, g, c, sk, made, resource, op, now);
  }

  /** The exception is real, for every such grant. */
  lemma AttenuationResigns(s: Scheme, g: CapabilityGrant, c: ConnectClaims, sk: Bytes, made: nat, resource: Bytes,
                           now: nat)
    requires Ideal(s) && VerifySignature(s, g).Some? && c.tenants.None? && !g.revoked && now < g.expiresAtMs
    requires made <= now
    ensures Check(s, g, resource, Read, now).Some?
    ensures Check(s, Attenuate(s, g, c, sk, made), resource, Read, now).None? <==> ScopesAllow(g, resource, Read)
  {
    hide VerifySignature, TokenWrites, Attenuate, ScopesAllow;
    AllowsIfFirst(g, resource, Read);
    AttenuatedAllows(s, g, c, sk, made, resource, Read, now);
  }

  // ---- any number of tokens ----

  /** A token and the time it was applied. */
  datatype Narrowing = Narrowing(claims: ConnectClaims, made: nat)

  function AttenuateAll(s: Scheme, g: CapabilityGrant, ns: seq<Narrowing>, sk: Bytes): CapabilityGrant {
    if ns == [] then g
    else Attenuate(s, AttenuateAll(s, g, ns[..|ns| - 1], sk), ns[|ns| - 1].claims, sk, ns[|ns| - 1].made)
  }

  /** However many tokens a verifying grant is narrowed to, in whatever order, it allows exactly
      what it allowed and all of them allow. */
  lemma {:induction false} AttenuationNarrows(s: Scheme, g: CapabilityGrant, ns: seq<Narrowing>, sk: Bytes,
                                              resource: Bytes, op: Op, now: nat)
    requires Ideal(s) && VerifySignature(s, g).None? && forall i :: 0 <= i < |ns| ==> ns[i].made <= now
    ensures VerifySignature(s, AttenuateAll(s, g, ns, sk)).None?
    ensures Check(s, AttenuateAll(s, g, ns, sk), resource, op, now).None? <==>
      && Check(s, g, resource, op, now).None?
      && forall i :: 0 <= i < |ns| ==> TokenAllows(ns[i].claims, resource, op)
  {
    hide Check, TokenAllows, Attenuate, VerifySignature, Ideal;
    if ns != [] {
      var init, last := ns[..|ns| - 1], ns[|ns| - 1];
      AttenuationNarrows(s, g, init, sk, resource, op, now);
      var before := AttenuateAll(s, g, init, sk);
      AttenuatedVerifies(s, before, last.claims, sk, last.made);
      AttenuationIntersects(s, before, last.claims, sk, last.made, resource, op, now);
    }
  }
}
