/** Tag, length, bytes: the framing behind node ids (crates/mem-core/src/identity.rs), grant
    signatures (crates/mem-authz/src/grant.rs) and audit hashes (crates/mem-authz/src/audit.rs). */
module Framing {
  import opened Sorting
  import Audit

  function Pow256(k: nat): nat { if k == 0 then 1 else 256 * Pow256(k - 1) }

  /** The `k` least significant bytes of `n`, least significant first. */
  function LittleEndian(n: nat, k: nat): (bytes: Bytes)
    ensures |bytes| == k
  {
    if k == 0 then [] else [n % 256] + LittleEndian(n / 256, k - 1)
  }

  lemma {:induction false} LittleEndianInjective(a: nat, b: nat, k: nat)
    requires a < Pow256(k) && b < Pow256(k) && LittleEndian(a, k) == LittleEndian(b, k)
    ensures a == b
  {
    if k > 0 {
      var x, y := LittleEndian(a, k), LittleEndian(b, k);
      assert x[0] == y[0] && x[1..] == y[1..];
      assert x[1..] == LittleEndian(a / 256, k - 1) && y[1..] == LittleEndian(b / 256, k - 1);
      LittleEndianInjective(a / 256, b / 256, k - 1);
    }
  }

  const U64_SIZE: nat := U64_MAX + 1

  lemma Pow256Of8()
    ensures Pow256(8) == U64_SIZE && Pow256(2) == 0x1_0000
  {
    assert Pow256(2) == 0x1_0000 && Pow256(4) == 0x1_0000_0000 && Pow256(6) == 0x1_0000_0000_0000;
  }

  lemma U64Injective(a: nat, b: nat)
    requires a < U64_SIZE && b < U64_SIZE && LittleEndian(a, 8) == LittleEndian(b, 8)
    ensures a == b
  {
    Pow256Of8();
    LittleEndianInjective(a, b, 8);
  }

  /** The bytes of an ASCII literal. */
  function Ascii(s: string): Bytes {
    seq(|s|, i requires 0 <= i < |s| => s[i] as nat)
  }

  lemma AsciiInjective(a: string, b: string)
    requires Ascii(a) == Ascii(b)
    ensures a == b
  {
    assert |Ascii(a)| == |a| && |Ascii(b)| == |b|;
    forall i | 0 <= i < |a| ensures a[i] == b[i] { assert Ascii(a)[i] == Ascii(b)[i]; }
  }

  // ---- frames ----

  datatype Frame = Frame(tag: nat, bytes: Bytes)

  function Feed(f: Frame): Bytes {
    [f.tag] + LittleEndian(|f.bytes|, 8) + f.bytes
  }

  function Encode(fs: seq<Frame>): Bytes {
    if fs == [] then [] else Feed(fs[0]) + Encode(fs[1..])
  }

  /** A length a 64-bit machine can have. */
  predicate Sized(fs: seq<Frame>) {
    forall i :: 0 <= i < |fs| ==> |fs[i].bytes| < U64_SIZE
  }

  lemma FeedIsPrefixFree(f: Frame, g: Frame, x: Bytes, y: Bytes)
    requires Feed(f) + x == Feed(g) + y && |f.bytes| < U64_SIZE && |g.bytes| < U64_SIZE
    ensures f == g && x == y
  {
    var s, t := Feed(f) + x, Feed(g) + y;
    assert s[0] == f.tag && t[0] == g.tag;
    assert s[1..9] == LittleEndian(|f.bytes|, 8) && t[1..9] == LittleEndian(|g.bytes|, 8);
    U64Injective(|f.bytes|, |g.bytes|);
    assert s[9..9 + |f.bytes|] == f.bytes && t[9..9 + |g.bytes|] == g.bytes;
    assert s[9 + |f.bytes|..] == x && t[9 + |g.bytes|..] == y;
  }

  /** No two field lists encode to the same bytes. */
  lemma {:induction false} EncodeInjective(fs: seq<Frame>, gs: seq<Frame>)
    requires Sized(fs) && Sized(gs) && Encode(fs) == Encode(gs)
    ensures fs == gs
  {
    if fs == [] || gs == [] {
      assert fs != [] ==> |Encode(fs)| > 0;
      assert gs != [] ==> |Encode(gs)| > 0;
    } else {
      FeedIsPrefixFree(fs[0], gs[0], Encode(fs[1..]), Encode(gs[1..]));
      EncodeInjective(fs[1..], gs[1..]);
      assert fs == [fs[0]] + fs[1..] && gs == [gs[0]] + gs[1..];
    }
  }

  lemma {:induction false} EncodeAppend(fs: seq<Frame>, f: Frame)
    ensures Encode(fs + [f]) == Encode(fs) + Feed(f)
  {
    if fs == [] {
      assert fs + [f] == [f] && Encode([f]) == Feed(f) + Encode([f][1..]);
    } else {
      EncodeAppend(fs[1..], f);
      assert (fs + [f])[1..] == fs[1..] + [f];
    }
  }

  // ---- the audit record hash ----

  /** A record as it is hashed, the previous hash as its 32 bytes. */
  datatype RawRecord = RawRecord(
    sequence: nat, timestamp: nat, prevHash: Bytes, event: Audit.MemoryEvent,
    actor: Bytes, resource: Bytes, detail: Bytes)

  function EventName(e: Audit.MemoryEvent): string {
    match e case Read => "Read" case Write => "Write" case Denied => "Denied"
  }

  function RecordFrames(r: RawRecord): seq<Frame> {
    [Frame(0, Ascii("mem-authz:audit:v1")), Frame(1, LittleEndian(r.sequence, 8)),
     Frame(2, LittleEndian(r.timestamp, 8)), Frame(3, r.prevHash), Frame(4, Ascii(EventName(r.event))),
     Frame(5, r.actor), Frame(6, r.resource), Frame(7, r.detail)]
  }

  /** The bytes hashed for a record determine the record. */
  lemma RecordPreimageInjective(a: RawRecord, b: RawRecord)
    requires Sized(RecordFrames(a)) && Sized(RecordFrames(b))
    requires a.sequence < U64_SIZE && a.timestamp < U64_SIZE && b.sequence < U64_SIZE && b.timestamp < U64_SIZE
    requires Encode(RecordFrames(a)) == Encode(RecordFrames(b))
    ensures a == b
  {
    hide Encode, LittleEndian, Ascii, Sized;
    EncodeInjective(RecordFrames(a), RecordFrames(b));
    var x, y := RecordFrames(a), RecordFrames(b);
    assert x[1] == y[1] && x[2] == y[2] && x[3] == y[3] && x[4] == y[4] && x[5] == y[5] && x[6] == y[6] && x[7] == y[7];
    U64Injective(a.sequence, b.sequence);
    U64Injective(a.timestamp, b.timestamp);
    AsciiInjective(EventName(a.event), EventName(b.event));
    EventNameInjective(a.event, b.event);
  }

  lemma EventNameInjective(a: Audit.MemoryEvent, b: Audit.MemoryEvent)
    requires EventName(a) == EventName(b)
    ensures a == b
  {
    assert |"Read"| == 4 && |"Write"| == 5 && |"Denied"| == 6;
  }
}
