/** Heading-aware chunking (crates/mem-corpus/src/chunk.rs). Text is a sequence of Unicode
    scalar values; byte offsets are sums of their UTF-8 widths. */
module Tiling {
  import opened Sorting
  import opened Text

  // ---- bytes ----

  function Utf8Width(c: char): nat {
    if c < '\U{80}' then 1 else if c < '\U{800}' then 2 else if c < '\U{10000}' then 3 else 4
  }

  /** The encoding whose width that is (section 3 of RFC 3629). */
  function Utf8(c: char): seq<nat> {
    var n := c as nat;
    if n < 0x80 then [n]
    else if n < 0x800 then [0xC0 + n / 0x40, 0x80 + n % 0x40]
    else if n < 0x1_0000 then [0xE0 + n / 0x1000, 0x80 + n / 0x40 % 0x40, 0x80 + n % 0x40]
    else [0xF0 + n / 0x4_0000, 0x80 + n / 0x1000 % 0x40, 0x80 + n / 0x40 % 0x40, 0x80 + n % 0x40]
  }

  lemma WidthIsUtf8(c: char)
    ensures |Utf8(c)| == Utf8Width(c)
    ensures var lead := Utf8(c)[0];
      if |Utf8(c)| == 1 then lead < 0x80
      else if |Utf8(c)| == 2 then 0xC2 <= lead < 0xE0
      else if |Utf8(c)| == 3 then 0xE0 <= lead < 0xF0
      else 0xF0 <= lead < 0xF5
  {
  }

  function ByteLen(s: string): nat {
    if s == [] then 0 else ByteLen(s[..|s| - 1]) + Utf8Width(s[|s| - 1])
  }

  lemma {:induction false} ByteLenConcat(a: string, b: string)
    ensures ByteLen(a + b) == ByteLen(a) + ByteLen(b)
  {
    if b == [] {
      assert a + b == a;
    } else {
      ByteLenConcat(a, b[..|b| - 1]);
      assert (a + b)[..|a + b| - 1] == a + b[..|b| - 1];
    }
  }

  /** The byte offset of character `i`. */
  function Offset(text: string, i: nat): nat
    requires i <= |text|
  {
    ByteLen(text[..i])
  }

  lemma OffsetStep(text: string, i: nat, j: nat)
    requires i <= j <= |text|
    ensures Offset(text, j) == Offset(text, i) + ByteLen(text[i..j])
  {
    assert text[..j] == text[..i] + text[i..j];
    ByteLenConcat(text[..i], text[i..j]);
  }

  // ---- lines ----

  /** One past the next newline, or the end. */
  function LineEnd(text: string, p: nat): (n: nat)
    requires p < |text|
    ensures p < n <= |text|
    ensures forall i :: p <= i < n - 1 ==> text[i] != '\n'
    ensures n < |text| ==> text[n - 1] == '\n'
    decreases |text| - p
  {
    if text[p] == '\n' || p + 1 == |text| then p + 1 else LineEnd(text, p + 1)
  }

  /** A new line, or the end of the text. */
  predicate AtLineStart(text: string, p: nat) {
    p <= |text| && (p == 0 || p == |text| || text[p - 1] == '\n')
  }

  /** Inside a line longer than the limit. */
  ghost predicate InsideLong(text: string, max: nat, p: nat) {
    exists s :: LongAround(text, max, s, p)
  }

  ghost predicate LongAround(text: string, max: nat, s: nat, p: nat) {
    s < p < |text| && AtLineStart(text, s) && p < LineEnd(text, s) && LineEnd(text, s) - s > max
  }

  /** Cuts fall between lines. Only a line longer than the limit is cut inside, and then the
      piece before the cut is exactly as long as the limit. */
  ghost predicate CutRight(text: string, max: nat, s: Span) {
    && (AtLineStart(text, s.start) || InsideLong(text, max, s.start))
    && (AtLineStart(text, s.end) || (InsideLong(text, max, s.end) && s.end - s.start == max))
  }

  /** A span that stops before `stop` has no room for the rest of the next line. */
  ghost predicate Packed(text: string, max: nat, s: Span, stop: nat) {
    s.end == stop || (s.end < |text| && LineEnd(text, s.end) - s.start > max)
  }

  /** Inside a span no line follows that did not fit: up to there it was blank or had room. */
  ghost predicate NotLate(text: string, max: nat, s: Span) {
    forall p :: s.start < p < s.end && p < |text| && AtLineStart(text, p) && s.end <= |text| ==>
      Blank(text[s.start..p]) || LineEnd(text, p) - s.start <= max
  }

  /** At the start of a line longer than the limit, or inside one. */
  ghost predicate StartsLong(text: string, max: nat, p: nat) {
    InsideLong(text, max, p) || (p < |text| && AtLineStart(text, p) && LineEnd(text, p) - p > max)
  }

  /** A span starts where its section starts or where the one before it ended. Only an over-long
      line gives up what is blank before it. */
  ghost predicate Begins(text: string, max: nat, base: nat, prev: nat, p: nat) {
    p == base || p == prev || StartsLong(text, max, p)
  }

  ghost function PrevEnd(spans: seq<Span>, k: nat): nat
    requires k <= |spans|
  {
    if k == 0 then 0 else spans[k - 1].end
  }

  // ---- chunks and what makes them a tiling ----

  datatype Chunk = Chunk(breadcrumb: string, text: string, byteStart: nat, byteEnd: nat)

  predicate IsLineBreak(c: char) { c == '\n' || c == '\r' }

  function TrimNewlines(s: string): string { DropLastWhile(IsLineBreak, DropWhile(IsLineBreak, s)) }

  /** Character positions [start, end). */
  datatype Span = Span(start: nat, end: nat)

  ghost predicate Covered(spans: seq<Span>, i: nat) {
    exists k :: 0 <= k < |spans| && spans[k].start <= i < spans[k].end
  }

  /** Without the line breaks at both ends, and only those. */
  ghost predicate TrimmedTo(text: string, s: Span, a: int, b: int) {
    && s.start <= a < b <= s.end <= |text|
    && (forall i :: s.start <= i < a || b <= i < s.end ==> text[i] == '\n' || text[i] == '\r')
    && text[a] != '\n' && text[a] != '\r' && text[b - 1] != '\n' && text[b - 1] != '\r'
  }

  /** Chunk `c` is the text of its span without the line breaks around it. */
  ghost predicate ChunkOf(text: string, offset: nat, max: nat, s: Span, c: Chunk) {
    && s.start < s.end <= |text| && CutRight(text, max, s) && NotLate(text, max, s)
    && (exists a, b :: TrimmedTo(text, s, a, b) && c.text == text[a..b]) && !Blank(c.text)
    && c.byteStart == offset + Offset(text, s.start) && c.byteEnd == offset + Offset(text, s.end)
    && (max >= 1 ==> |TrimStart(c.text)| <= max)
  }

  /** The chunks tile the first `upto` characters: ordered disjoint spans, and nothing but
      whitespace outside them. */
  ghost predicate Tiles(text: string, offset: nat, max: nat, upto: nat, out: seq<Chunk>, spans: seq<Span>) {
    && upto <= |text| && |spans| == |out|
    && (forall k :: 0 <= k < |out| ==> ChunkOf(text, offset, max, spans[k], out[k]) && spans[k].end <= upto)
    && (forall j, k :: 0 <= j < k < |spans| ==> spans[j].end <= spans[k].start)
    && (forall i :: 0 <= i < upto && !Covered(spans, i) ==> IsWhitespace(text[i]))
  }

  // ---- trimming facts ----

  lemma TrimNewlinesSpec(s: string) returns (a: nat, b: nat)
    ensures a <= b <= |s| && TrimNewlines(s) == s[a..b]
    ensures forall i :: 0 <= i < |s| && !(a <= i < b) ==> IsLineBreak(s[i])
    ensures a < b ==> !IsLineBreak(s[a]) && !IsLineBreak(s[b - 1])
  {
    a := DropWhileSpec(IsLineBreak, s);
    var t := s[a..];
    var k := DropLastWhileSpec(IsLineBreak, t);
    b := a + k;
    assert t[..k] == s[a..b];
    if a < b { assert t[k - 1] == s[b - 1]; }
    forall i | 0 <= i < |s| && !(a <= i < b) ensures IsLineBreak(s[i]) {
      if i >= a { assert t[i - a] == s[i]; }
    }
  }

  /** A part of a string has no more left after its leading whitespace than the whole. */
  lemma PartTrimsShorter(s: string, a: nat, b: nat)
    requires a <= b <= |s|
    ensures |TrimStart(s[a..b])| <= |TrimStart(s)|
  {
    var k := DropWhileSpec(IsWhitespace, s);
    var j := DropWhileSpec(IsWhitespace, s[a..b]);
    if a + j < b { assert s[a..b][j] == s[a + j]; }
  }

  lemma BlankAfterTrim(s: string)
    ensures Blank(TrimNewlines(s)) <==> Blank(s)
    ensures |TrimStart(TrimNewlines(s))| <= |TrimStart(s)|
  {
    var a, b := TrimNewlinesSpec(s);
    PartTrimsShorter(s, a, b);
    if Blank(s[a..b]) {
      forall i | 0 <= i < |s| ensures IsWhitespace(s[i]) {
        if a <= i < b { assert s[a..b][i - a] == s[i]; }
      }
    }
  }

  lemma TrimStartShorter(s: string)
    ensures |TrimStart(s)| <= |s|
  {
    var k := DropWhileSpec(IsWhitespace, s);
  }

  lemma BlankThenLine(s: string, line: string)
    requires Blank(s)
    ensures |TrimStart(s + line)| <= |line|
  {
    var k := DropWhileSpec(IsWhitespace, s + line);
    assert k < |s + line| ==> k >= |s|;
  }

  // ---- the buffer ----

  datatype Buffer = Buffer(text: string, start: Option<nat>, end: nat)

  const EMPTY := Buffer([], None, 0)

  /** The buffer holds `text[lo..hi]` and everything before it is tiled. */
  ghost predicate Pending(text: string, offset: nat, max: nat, lo: nat, hi: nat, b: Buffer, out: seq<Chunk>,
                          spans: seq<Span>) {
    && lo <= hi <= |text| && b.text == text[lo..hi] && Tiles(text, offset, max, lo, out, spans)
    && (b.text != [] ==> b.start.Some? && b.end == Offset(text, hi))
    && (b.start.Some? ==> b.start.value == Offset(text, lo))
    && (b.text != [] ==> AtLineStart(text, lo) || InsideLong(text, max, lo))
    && (max >= 1 ==> |TrimStart(b.text)| <= max) && NotLate(text, max, Span(lo, hi))
  }

  /** Push the buffer as a chunk unless it is blank. */
  method Flush(text: string, offset: nat, ghost max: nat, breadcrumb: string, b: Buffer, out0: seq<Chunk>,
               ghost spans0: seq<Span>, ghost lo: nat, ghost hi: nat, ghost sec: Span)
    returns (out: seq<Chunk>, ghost spans: seq<Span>)
    requires Pending(text, offset, max, lo, hi, b, out0, spans0)
    requires Begins(text, max, sec.start, PrevEnd(spans0, |spans0|), lo)
    requires lo < hi ==> AtLineStart(text, hi) || (InsideLong(text, max, hi) && hi - lo == max)
    requires Packed(text, max, Span(lo, hi), sec.end)
    ensures Tiles(text, offset, max, hi, out, spans)
    ensures Grows(text, max, sec, out0, spans0, out, spans, breadcrumb, lo, hi)
    ensures !Blank(b.text) ==> PrevEnd(spans, |spans|) == hi
  {
    hide InsideLong, Packed, NotLate, StartsLong, Tiles, Pending, Trim, TrimNewlines;
    out, spans := out0, spans0;
    var t := TrimNewlines(b.text);
    BlankAfterTrim(b.text);
    TrimEmpty(t);
    PendingFacts(text, offset, max, lo, hi, b, out0, spans0);
    TilesSameLength(text, offset, max, lo, out0, spans0);
    if Trim(t) != [] && b.start.Some? {
      var c := Chunk(breadcrumb, t, offset + b.start.value, offset + b.end);
      out := out0 + [c];
      spans := spans0 + [Span(lo, hi)];
      BufferIsChunk(text, offset, max, lo, hi, b, out0, spans0, c);
      PushTiles(text, offset, max, lo, hi, out0, spans0, c);
    } else {
      BlankTiles(text, offset, max, lo, hi, b, out0, spans0);
    }
  }

  /** The buffer, unless blank, makes a chunk. */
  lemma BufferIsChunk(text: string, offset: nat, max: nat, lo: nat, hi: nat, b: Buffer, out: seq<Chunk>,
                      spans: seq<Span>, c: Chunk)
    requires Pending(text, offset, max, lo, hi, b, out, spans) && b.start.Some? && !Blank(c.text)
    requires lo < hi ==> AtLineStart(text, hi) || (InsideLong(text, max, hi) && hi - lo == max)
    requires c.text == TrimNewlines(b.text) && c.byteStart == offset + b.start.value && c.byteEnd == offset + b.end
    ensures ChunkOf(text, offset, max, Span(lo, hi), c)
  {
    hide InsideLong, NotLate, Tiles, Offset, TrimNewlines, TrimStart;
    BlankAfterTrim(b.text);
    TrimmedSpan(text, lo, hi);
    assert b.text != [];
  }

  lemma BlankTiles(text: string, offset: nat, max: nat, lo: nat, hi: nat, b: Buffer, out: seq<Chunk>, spans: seq<Span>)
    requires Pending(text, offset, max, lo, hi, b, out, spans) && Blank(b.text)
    ensures Tiles(text, offset, max, hi, out, spans)
  {
    hide ChunkOf, NotLate;
    assert forall i :: lo <= i < hi ==> b.text[i - lo] == text[i];
  }

  lemma TrimmedSpan(text: string, lo: nat, hi: nat)
    requires lo <= hi <= |text| && !Blank(TrimNewlines(text[lo..hi]))
    ensures exists a, b :: TrimmedTo(text, Span(lo, hi), a, b) && TrimNewlines(text[lo..hi]) == text[a..b]
  {
    var s := text[lo..hi];
    var a, b := TrimNewlinesSpec(s);
    assert forall i :: lo <= i < hi ==> s[i - lo] == text[i];
    assert s[a..b] == text[lo + a..lo + b];
    assert TrimmedTo(text, Span(lo, hi), lo + a, lo + b);
  }

  /** What a flush or a section `sec` adds: chunks with one breadcrumb, inside [lo, hi), starting
      where they may, and none of them cut short before the section's end. */
  ghost predicate Grows(text: string, max: nat, sec: Span, out0: seq<Chunk>, spans0: seq<Span>, out: seq<Chunk>,
                        spans: seq<Span>, breadcrumb: string, lo: nat, hi: nat) {
    && |spans0| == |out0| && |spans| == |out| && out0 <= out && spans0 <= spans
    && forall k :: |out0| <= k < |out| ==>
         && out[k].breadcrumb == breadcrumb && lo <= spans[k].start && spans[k].end <= hi
         && Packed(text, max, spans[k], sec.end)
         && Begins(text, max, sec.start, PrevEnd(spans, k), spans[k].start)
  }

  lemma PushTiles(text: string, offset: nat, max: nat, lo: nat, hi: nat, out: seq<Chunk>, spans: seq<Span>, c: Chunk)
    requires lo <= hi <= |text| && Tiles(text, offset, max, lo, out, spans)
    requires ChunkOf(text, offset, max, Span(lo, hi), c)
    ensures Tiles(text, offset, max, hi, out + [c], spans + [Span(lo, hi)])
  {
    hide ChunkOf;
    var spans' := spans + [Span(lo, hi)];
    assert forall k :: 0 <= k < |spans| ==> spans'[k] == spans[k];
    assert spans'[|spans|] == Span(lo, hi);
    assert forall i :: Covered(spans, i) ==> Covered(spans', i);
  }

  lemma GrowsChain(text: string, max: nat, sec: Span, out0: seq<Chunk>, spans0: seq<Span>, out1: seq<Chunk>,
                   spans1: seq<Span>, out2: seq<Chunk>, spans2: seq<Span>,
                   breadcrumb: string, a: nat, lo: nat, hi: nat, z: nat)
    requires Grows(text, max, sec, out0, spans0, out1, spans1, breadcrumb, a, lo)
    requires Grows(text, max, sec, out1, spans1, out2, spans2, breadcrumb, lo, hi)
    requires a <= lo <= hi <= z
    ensures Grows(text, max, sec, out0, spans0, out2, spans2, breadcrumb, a, z)
  {
    hide Packed, Begins;
    forall k | |out0| <= k < |out2|
      ensures out2[k].breadcrumb == breadcrumb && a <= spans2[k].start && spans2[k].end <= z
      ensures Packed(text, max, spans2[k], sec.end)
      ensures Begins(text, max, sec.start, PrevEnd(spans2, k), spans2[k].start)
    {
      if k < |out1| {
        assert out2[k] == out1[k] && spans2[k] == spans1[k] && PrevEnd(spans2, k) == PrevEnd(spans1, k);
      }
    }
  }

  lemma EmptyPending(text: string, offset: nat, max: nat, at: nat, out: seq<Chunk>, spans: seq<Span>)
    requires Tiles(text, offset, max, at, out, spans)
    ensures Pending(text, offset, max, at, at, EMPTY, out, spans)
  {
  }

  /** Characters [at, end) are one whole line. */
  ghost predicate WholeLine(text: string, at: nat, end: nat) {
    at < |text| && AtLineStart(text, at) && LineEnd(text, at) == end
  }

  lemma InsideWholeLine(text: string, max: nat, at: nat, end: nat, p: nat)
    requires WholeLine(text, at, end) && at <= p < end
    ensures p < |text| && LineEnd(text, p) == end && AtLineStart(text, end)
    ensures p > at && end - at > max ==> InsideLong(text, max, p)
  {
    SameLineEnd(text, at, p);
    assert p > at && end - at > max ==> LongAround(text, max, at, p);
  }

  lemma {:induction false} SameLineEnd(text: string, at: nat, p: nat)
    requires at < |text| && at <= p < LineEnd(text, at)
    ensures LineEnd(text, p) == LineEnd(text, at)
    decreases p - at
  {
    if at < p { SameLineEnd(text, at + 1, p); }
  }

  /** A line at character `at`, at its byte offset. */
  ghost predicate LineAt(text: string, line: string, start: nat, at: nat) {
    && WholeLine(text, at, at + |line|)
    && line != [] && at + |line| <= |text| && start == Offset(text, at)
    && forall i :: 0 <= i < |line| ==> line[i] == text[at + i]
  }

  lemma LinePart(text: string, line: string, start: nat, at: nat, i: nat, j: nat)
    requires LineAt(text, line, start, at) && i <= j <= |line|
    ensures at + |line| <= |text| && start == Offset(text, at) && text[at + i..at + j] == line[i..j]
  {
    hide Offset;
  }

  lemma LineOffset(text: string, line: string, start: nat, at: nat, i: nat)
    requires LineAt(text, line, start, at) && i <= |line|
    ensures at + i <= |text| && Offset(text, at + i) == start + ByteLen(line[..i])
  {
    hide LineAt, Offset, ByteLen;
    LinePart(text, line, start, at, 0, i);
    OffsetStep(text, at, at + i);
  }

  /** Hard-split an over-long line on character boundaries; the last piece stays in the buffer. */
  method SplitLong(text: string, offset: nat, max: nat, breadcrumb: string, line: string, start: nat, ghost at: nat,
                   out0: seq<Chunk>, ghost spans0: seq<Span>, ghost sec: Span)
    returns (b: Buffer, out: seq<Chunk>, ghost spans: seq<Span>, ghost lo: nat)
    requires |line| > max && LineAt(text, line, start, at) && Tiles(text, offset, max, at, out0, spans0)
    ensures at <= lo && Pending(text, offset, max, lo, at + |line|, b, out, spans)
    ensures Grows(text, max, sec, out0, spans0, out, spans, breadcrumb, at, lo) && StartsLong(text, max, lo)
  {
    hide Tiles, Offset, ByteLen, LineAt, Pending, TrimStart, InsideLong, Packed, AtLineStart, NotLate, StartsLong;
    out, spans := out0, spans0;
    LineIsWhole(text, line, start, at);
    var seg, count := 0, 0;
    assert Grows(text, max, sec, out0, spans0, out, spans, breadcrumb, at, at) by {
      TilesSameLength(text, offset, max, at, out0, spans0);
    }
    for j := 0 to |line|
      invariant seg <= j && seg < |line| && count == j - seg && (max >= 1 ==> count <= max)
      invariant Tiles(text, offset, max, at + seg, out, spans)
      invariant Grows(text, max, sec, out0, spans0, out, spans, breadcrumb, at, at + seg)
    {
      if count == max {
        LinePart(text, line, start, at, seg, j);
        LineOffset(text, line, start, at, seg);
        LineOffset(text, line, start, at, j);
        var piece := Buffer(line[seg..j], Some(start + ByteLen(line[..seg])), start + ByteLen(line[..j]));
        TrimStartShorter(piece.text);
        PieceCut(text, max, line, start, at, seg, j, sec.end);
        MakePending(text, offset, max, at + seg, at + j, piece, out, spans);
        var out', spans' := Flush(text, offset, max, breadcrumb, piece, out, spans, at + seg, at + j, sec);
        GrowsChain(text, max, sec, out0, spans0, out, spans, out', spans', breadcrumb, at, at + seg, at + j, at + j);
        out, spans := out', spans';
        seg, count := j, 0;
      }
      count := count + 1;
    }
    LinePart(text, line, start, at, seg, |line|);
    LineOffset(text, line, start, at, seg);
    LineOffset(text, line, start, at, |line|);
    assert line[seg..|line|] == line[seg..] && line[..|line|] == line;
    b := Buffer(line[seg..], Some(start + ByteLen(line[..seg])), start + ByteLen(line));
    lo := at + seg;
    TrimStartShorter(b.text);
    PieceCut(text, max, line, start, at, seg, seg, sec.end);
    MakePending(text, offset, max, lo, at + |line|, b, out, spans);
  }

  /** Where the pieces of an over-long line begin and end. */
  lemma PieceCut(text: string, max: nat, line: string, start: nat, at: nat, seg: nat, j: nat, stop: nat)
    requires |line| > max && LineAt(text, line, start, at) && seg <= j < |line|
    ensures AtLineStart(text, at + seg) || InsideLong(text, max, at + seg)
    ensures AtLineStart(text, at + j) || InsideLong(text, max, at + j)
    ensures j - seg == max ==> Packed(text, max, Span(at + seg, at + j), stop)
    ensures StartsLong(text, max, at + seg)
    ensures NotLate(text, max, Span(at + seg, at + j)) && NotLate(text, max, Span(at + seg, at + |line|))
  {
    hide InsideLong;
    LineIsWhole(text, line, start, at);
    NoLinesInside(text, at, at + |line|);
    hide AtLineStart;
    InsideWholeLine(text, max, at, at + |line|, at + seg);
    InsideWholeLine(text, max, at, at + |line|, at + j);
  }

  lemma NoLinesInside(text: string, at: nat, end: nat)
    requires WholeLine(text, at, end)
    ensures forall p :: at < p < end && p < |text| ==> !AtLineStart(text, p)
  {
    forall p | at < p < end && p < |text| ensures !AtLineStart(text, p) { assert text[p - 1] != '\n'; }
  }

  lemma LineIsWhole(text: string, line: string, start: nat, at: nat)
    requires LineAt(text, line, start, at)
    ensures WholeLine(text, at, at + |line|) && AtLineStart(text, at) && AtLineStart(text, at + |line|)
    ensures line != []
  {
    hide Offset;
  }

  lemma TilesSameLength(text: string, offset: nat, max: nat, upto: nat, out: seq<Chunk>, spans: seq<Span>)
    requires Tiles(text, offset, max, upto, out, spans)
    ensures |spans| == |out|
  {
  }

  /** One line: hard-split it, or flush a full buffer and append it. */
  method AddLine(text: string, offset: nat, max: nat, breadcrumb: string, line: string, start: nat, b0: Buffer,
                 out0: seq<Chunk>, ghost spans0: seq<Span>, ghost lo0: nat, ghost at: nat, ghost sec: Span)
    returns (b: Buffer, out: seq<Chunk>, ghost spans: seq<Span>, ghost lo: nat)
    requires LineAt(text, line, start, at) && Pending(text, offset, max, lo0, at, b0, out0, spans0)
    requires Begins(text, max, sec.start, PrevEnd(spans0, |spans0|), lo0)
    ensures lo0 <= lo && Pending(text, offset, max, lo, at + |line|, b, out, spans)
    ensures Grows(text, max, sec, out0, spans0, out, spans, breadcrumb, lo0, lo)
    ensures Begins(text, max, sec.start, PrevEnd(spans, |spans|), lo)
  {
    hide Tiles, Offset, InsideLong, Packed, AtLineStart, LineAt, Pending, ByteLen, StartsLong, NotLate;
    b, out, spans, lo := b0, out0, spans0, lo0;
    LineIsWhole(text, line, start, at);
    PendingFacts(text, offset, max, lo0, at, b0, out0, spans0);
    if |line| > max {
      NextLineTooLong(text, max, lo0, at, line, start, sec.end);
      out, spans := Flush(text, offset, max, breadcrumb, b, out0, spans0, lo0, at, sec);
      ghost var out1, spans1 := out, spans;
      b, out, spans, lo := SplitLong(text, offset, max, breadcrumb, line, start, at, out, spans, sec);
      GrowsChain(text, max, sec, out0, spans0, out1, spans1, out, spans, breadcrumb, lo0, at, lo, lo);
      return;
    }
    TrimEmpty(b.text);
    if |b.text| + |line| > max && Trim(b.text) != [] {
      NextLineTooLong(text, max, lo0, at, line, start, sec.end);
      out, spans := Flush(text, offset, max, breadcrumb, b, out0, spans0, lo0, at, sec);
      b, lo := EMPTY, at;
      EmptyPending(text, offset, max, at, out, spans);
    } else {
      assert Grows(text, max, sec, out0, spans0, out, spans, breadcrumb, lo0, lo0) by {
        TilesSameLength(text, offset, max, lo0, out0, spans0);
      }
    }
    LineJoins(text, offset, max, breadcrumb, line, start, b, out, spans, lo, at);
    b := Buffer(b.text + line, if b.start.None? then Some(start) else b.start, start + ByteLen(line));
  }

  lemma NextLineTooLong(text: string, max: nat, lo: nat, at: nat, line: string, start: nat, stop: nat)
    requires LineAt(text, line, start, at) && lo <= at && (at - lo) + |line| > max
    ensures Packed(text, max, Span(lo, at), stop)
  {
    hide Offset;
  }

  lemma LineJoins(text: string, offset: nat, max: nat, breadcrumb: string, line: string, start: nat, b: Buffer,
                  out: seq<Chunk>, spans: seq<Span>, lo: nat, at: nat)
    requires LineAt(text, line, start, at) && Pending(text, offset, max, lo, at, b, out, spans) && |line| <= max
    requires |b.text| + |line| <= max || Blank(b.text)
    ensures Pending(text, offset, max, lo, at + |line|,
                    Buffer(b.text + line, if b.start.None? then Some(start) else b.start, start + ByteLen(line)),
                    out, spans)
  {
    hide *;
    PendingFacts(text, offset, max, lo, at, b, out, spans);
    LineEnds(text, line, start, lo, at);
    LineIsWhole(text, line, start, at);
    StillNotLate(text, max, line, start, lo, at);
    if Blank(b.text) { BlankThenLine(b.text, line); } else { TrimStartShorter(b.text + line); }
    MakePending(text, offset, max, lo, at + |line|,
                Buffer(b.text + line, if b.start.None? then Some(start) else b.start, start + ByteLen(line)), out,
                       spans);
  }

  lemma StillNotLate(text: string, max: nat, line: string, start: nat, lo: nat, at: nat)
    requires LineAt(text, line, start, at) && lo <= at && NotLate(text, max, Span(lo, at))
    requires at - lo + |line| <= max || Blank(text[lo..at])
    ensures NotLate(text, max, Span(lo, at + |line|))
  {
    hide Offset, Blank;
    NoLinesInside(text, at, at + |line|);
  }

  lemma PendingFacts(text: string, offset: nat, max: nat, lo: nat, hi: nat, b: Buffer, out: seq<Chunk>,
                     spans: seq<Span>)
    requires Pending(text, offset, max, lo, hi, b, out, spans)
    ensures lo <= hi <= |text| && b.text == text[lo..hi] && Tiles(text, offset, max, lo, out, spans)
    ensures b.start.Some? ==> b.start.value == Offset(text, lo)
    ensures b.start.None? ==> lo == hi
    ensures lo < hi ==> AtLineStart(text, lo) || InsideLong(text, max, lo)
    ensures NotLate(text, max, Span(lo, hi))
  {
    hide Tiles, Offset, TrimStart, InsideLong, AtLineStart, NotLate;
    assert |text[lo..hi]| == hi - lo;
  }

  lemma MakePending(text: string, offset: nat, max: nat, lo: nat, hi: nat, b: Buffer, out: seq<Chunk>, spans: seq<Span>)
    requires lo <= hi <= |text| && b.text == text[lo..hi] && Tiles(text, offset, max, lo, out, spans)
    requires b.start == Some(Offset(text, lo)) && b.end == Offset(text, hi)
    requires max >= 1 ==> |TrimStart(b.text)| <= max
    requires (AtLineStart(text, lo) || InsideLong(text, max, lo)) && NotLate(text, max, Span(lo, hi))
    ensures Pending(text, offset, max, lo, hi, b, out, spans)
  {
    hide Tiles, Offset, TrimStart, InsideLong, AtLineStart, NotLate;
  }

  lemma LineEnds(text: string, line: string, start: nat, lo: nat, at: nat)
    requires LineAt(text, line, start, at) && lo <= at
    ensures at + |line| <= |text| && start == Offset(text, at) && Offset(text, at + |line|) == start + ByteLen(line)
    ensures text[lo..at + |line|] == text[lo..at] + line
  {
    hide *;
    LineIsSlice(text, line, start, at);
    LineEndOffset(text, line, start, at);
    SliceJoin(text, lo, at, at + |line|);
  }

  lemma LineIsSlice(text: string, line: string, start: nat, at: nat)
    requires LineAt(text, line, start, at)
    ensures at + |line| <= |text| && start == Offset(text, at) && text[at..at + |line|] == line
  {
    hide Offset, WholeLine;
    var t := text[at..at + |line|];
    assert |t| == |line| && forall i :: 0 <= i < |line| ==> t[i] == line[i];
  }

  lemma LineEndOffset(text: string, line: string, start: nat, at: nat)
    requires LineAt(text, line, start, at)
    ensures at + |line| <= |text| && Offset(text, at + |line|) == start + ByteLen(line)
  {
    hide *;
    LineIsSlice(text, line, start, at);
    OffsetStep(text, at, at + |line|);
  }

  lemma SliceJoin(text: string, a: nat, b: nat, c: nat)
    requires a <= b <= c <= |text|
    ensures text[a..c] == text[a..b] + text[b..c]
  {
  }
}
