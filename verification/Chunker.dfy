/** Lines, sections and the chunker (crates/mem-corpus/src/chunk.rs). */
module Chunker {
  import opened Sorting
  import opened Tiling
  import opened Headings

  // ---- what a section is ----

  datatype Line = Line(text: string, start: nat)

  datatype Section = Section(head: Option<string>, lines: seq<Line>)

  /** An odd number of fence lines precede. */
  ghost predicate InFence(before: seq<string>) {
    before != [] && InFence(before[..|before| - 1]) != FenceLine(before[|before| - 1])
  }

  /** The heading a line is, given the lines before it: none inside a fence. */
  ghost function HeadingHere(before: seq<string>, line: string): Option<string> {
    if FenceLine(line) || InFence(before) then None else Heading(line)
  }

  ghost function Concat(ts: seq<string>): string {
    if ts == [] then [] else Concat(ts[..|ts| - 1]) + ts[|ts| - 1]
  }

  ghost function Texts(ls: seq<Line>): seq<string> {
    seq(|ls|, i requires 0 <= i < |ls| => ls[i].text)
  }

  ghost function AllTexts(secs: seq<Section>): seq<string> {
    if secs == [] then [] else AllTexts(secs[..|secs| - 1]) + Texts(secs[|secs| - 1].lines)
  }

  /** Line `i` of a section is one whole line of the text, knows its byte offset, and is a heading
      exactly if it opens a section that has one. */
  ghost predicate LineOk(text: string, before: seq<string>, sec: Section, i: int)
    requires 0 <= i < |sec.lines|
  {
    var prior := before + Texts(sec.lines[..i]);
    && sec.lines[i].text != []
    && WholeLine(text, |Concat(prior)|, |Concat(prior)| + |sec.lines[i].text|)
    && sec.lines[i].start == ByteLen(Concat(prior))
    && HeadingHere(prior, sec.lines[i].text) == if i == 0 then sec.head else None
  }

  /** Only the first section may lack a heading. */
  ghost predicate SectionOk(text: string, before: seq<string>, sec: Section, first: bool) {
    && (if first then sec.head.None? else sec.head.Some? && sec.lines != [])
    && forall i :: 0 <= i < |sec.lines| ==> LineOk(text, before, sec, i)
  }

  ghost predicate Sectioned(text: string, secs: seq<Section>) {
    forall s :: 0 <= s < |secs| ==> SectionOk(text, AllTexts(secs[..s]), secs[s], s == 0)
  }

  // ---- concatenation ----

  lemma {:induction false} ConcatAppend(a: seq<string>, b: seq<string>)
    ensures Concat(a + b) == Concat(a) + Concat(b)
  {
    if b == [] {
      assert a + b == a;
    } else {
      ConcatAppend(a, b[..|b| - 1]);
      assert (a + b)[..|a + b| - 1] == a + b[..|b| - 1];
    }
  }

  lemma ConcatOne(a: seq<string>, t: string)
    ensures Concat(a + [t]) == Concat(a) + t
  {
    assert (a + [t])[..|a|] == a;
  }

  // ---- building the sections ----

  lemma AppendToLast(text: string, secs: seq<Section>, line: Line)
    requires secs != [] && Sectioned(text, secs) && line.text != [] && line.start == ByteLen(Concat(AllTexts(secs)))
    requires var at := |Concat(AllTexts(secs))|; WholeLine(text, at, at + |line.text|)
    requires HeadingHere(AllTexts(secs), line.text).None?
    ensures var last := secs[|secs| - 1];
      var after := secs[..|secs| - 1] + [last.(lines := last.lines + [line])];
      Sectioned(text, after) && AllTexts(after) == AllTexts(secs) + [line.text]
  {
    var n, last := |secs| - 1, secs[|secs| - 1];
    var longer := last.(lines := last.lines + [line]);
    var after := secs[..n] + [longer];
    LastTexts(secs, line);
    hide HeadingHere, Concat, ByteLen, WholeLine, SectionOk, AllTexts, Texts;
    assert SectionOk(text, AllTexts(secs[..n]), last, n == 0);
    LongerSection(text, AllTexts(secs[..n]), last, line, n == 0);
    forall s | 0 <= s < |after| ensures SectionOk(text, AllTexts(after[..s]), after[s], s == 0) {
      assert after[..s] == secs[..s];
      assert SectionOk(text, AllTexts(secs[..s]), secs[s], s == 0);
    }
  }

  lemma LastTexts(secs: seq<Section>, line: Line)
    requires secs != []
    ensures var n, last := |secs| - 1, secs[|secs| - 1];
      var after := secs[..n] + [last.(lines := last.lines + [line])];
      && AllTexts(secs) == AllTexts(secs[..n]) + Texts(last.lines)
      && AllTexts(after) == AllTexts(secs) + [line.text]
  {
    var n, last := |secs| - 1, secs[|secs| - 1];
    var after := secs[..n] + [last.(lines := last.lines + [line])];
    assert after[..n] == secs[..n] && Texts(last.lines + [line]) == Texts(last.lines) + [line.text];
  }

  lemma LongerSection(text: string, before: seq<string>, sec: Section, line: Line, first: bool)
    requires SectionOk(text, before, sec, first)
    requires var prior := before + Texts(sec.lines);
      && line.text != [] && line.start == ByteLen(Concat(prior)) && HeadingHere(prior, line.text).None?
      && WholeLine(text, |Concat(prior)|, |Concat(prior)| + |line.text|)
    ensures SectionOk(text, before, sec.(lines := sec.lines + [line]), first)
  {
    hide HeadingHere, Concat, ByteLen, WholeLine;
    var longer := sec.(lines := sec.lines + [line]);
    forall i | 0 <= i < |longer.lines| ensures LineOk(text, before, longer, i) {
      assert longer.lines[..i] == if i < |sec.lines| then sec.lines[..i] else sec.lines;
      if i < |sec.lines| { assert LineOk(text, before, sec, i); }
    }
  }

  lemma OpenSection(text: string, secs: seq<Section>, line: Line, h: string)
    requires secs != [] && Sectioned(text, secs) && line.text != [] && line.start == ByteLen(Concat(AllTexts(secs)))
    requires var at := |Concat(AllTexts(secs))|; WholeLine(text, at, at + |line.text|)
    requires HeadingHere(AllTexts(secs), line.text) == Some(h)
    ensures var after := secs + [Section(Some(h), [line])];
      Sectioned(text, after) && AllTexts(after) == AllTexts(secs) + [line.text]
  {
    hide HeadingHere, Concat, ByteLen, WholeLine;
    var sec := Section(Some(h), [line]);
    var after := secs + [sec];
    assert after[..|secs|] == secs && Texts([line]) == [line.text];
    assert sec.lines[..0] == [] && Texts([]) == [] && AllTexts(secs) + [] == AllTexts(secs);
    assert LineOk(text, AllTexts(secs), sec, 0);
    forall s | 0 <= s < |after| ensures SectionOk(text, AllTexts(after[..s]), after[s], s == 0) {
      assert after[..s] == secs[..s];
      if s < |secs| { assert SectionOk(text, AllTexts(secs[..s]), secs[s], s == 0); } else { assert secs[..s] == secs; }
    }
  }

  /** The first loop: split the text into sections at the headings outside fences. */
  method SplitSections(text: string) returns (secs: seq<Section>)
    ensures secs != [] && Sectioned(text, secs) && Concat(AllTexts(secs)) == text
  {
    hide Sectioned, HeadingHere, Heading, IsFence, FenceLine, ByteLen, Concat, AllTexts, InFence, WholeLine;
    hide LineEnd, AtLineStart;
    secs := [Section(None, [])];
    NoLines(text);
    var inFence, pos, p := false, 0, 0;
    while p < |text|
      invariant p <= |text| && secs != [] && Sectioned(text, secs) && Concat(AllTexts(secs)) == text[..p]
      invariant AtLineStart(text, p)
      invariant pos == ByteLen(text[..p]) && inFence == InFence(AllTexts(secs))
      decreases |text| - p
    {
      var n := LineEnd(text, p);
      var line := text[p..n];
      var item := Line(line, pos);
      ghost var prior := AllTexts(secs);
      NextLine(text, prior, p, n);
      FenceExactly(line);
      if IsFence(line) {
        inFence := !inFence;
        AfterFence(prior, line);
        AppendToLast(text, secs, item);
        secs := secs[..|secs| - 1] + [secs[|secs| - 1].(lines := secs[|secs| - 1].lines + [item])];
      } else if !inFence && Heading(line).Some? {
        PlainLine(prior, line);
        OpenSection(text, secs, item, Heading(line).value);
        secs := secs + [Section(Heading(line), [item])];
      } else {
        PlainLine(prior, line);
        AppendToLast(text, secs, item);
        secs := secs[..|secs| - 1] + [secs[|secs| - 1].(lines := secs[|secs| - 1].lines + [item])];
      }
      pos, p := pos + ByteLen(line), n;
    }
    assert text[..|text|] == text;
  }

  lemma NoLines(text: string)
    ensures Sectioned(text, [Section(None, [])]) && AllTexts([Section(None, [])]) == [] && ByteLen([]) == 0
    ensures Concat([]) == [] && !InFence([]) && AtLineStart(text, 0)
  {
    assert [Section(None, [])][..0] == [];
    assert AllTexts([Section(None, [])]) == AllTexts([]) + Texts([]);
  }

  lemma NextLine(text: string, prior: seq<string>, p: nat, n: nat)
    requires p < |text| && n == LineEnd(text, p) && AtLineStart(text, p) && Concat(prior) == text[..p]
    ensures |Concat(prior)| == p && WholeLine(text, p, p + |text[p..n]|) && AtLineStart(text, n)
    ensures Concat(prior + [text[p..n]]) == text[..n] && ByteLen(text[..n]) == ByteLen(text[..p]) + ByteLen(text[p..n])
    ensures text[p..n] != []
  {
    hide ByteLen;
    ConcatOne(prior, text[p..n]);
    assert text[..n] == text[..p] + text[p..n];
    ByteLenConcat(text[..p], text[p..n]);
  }

  lemma AfterFence(prior: seq<string>, line: string)
    requires FenceLine(line)
    ensures HeadingHere(prior, line).None? && InFence(prior + [line]) == !InFence(prior)
  {
    assert (prior + [line])[..|prior|] == prior;
  }

  lemma PlainLine(prior: seq<string>, line: string)
    requires !FenceLine(line)
    ensures HeadingHere(prior, line) == (if InFence(prior) then None else Heading(line))
    ensures InFence(prior + [line]) == InFence(prior)
  {
    assert (prior + [line])[..|prior|] == prior;
  }

  // ---- chunking a section ----

  function Crumb(title: string, head: Option<string>): string {
    if head.Some? && head.value != title then title + " \U{203A} " + head.value else title
  }

  lemma CrumbIs(title: string, head: Option<string>)
    ensures Crumb(title, head) ==
      match head case None => title case Some(h) => if h == title then title else title + " \U{203A} " + h
  {
  }

  /** Where line `i` of a section stands in the text. */
  lemma LineStands(text: string, before: seq<string>, sec: Section, i: nat)
    requires i < |sec.lines| && LineOk(text, before, sec, i)
    requires Concat(before + Texts(sec.lines)) <= text
    ensures LineAt(text, sec.lines[i].text, sec.lines[i].start, |Concat(before + Texts(sec.lines[..i]))|)
    ensures |Concat(before + Texts(sec.lines[..i + 1]))|
         == |Concat(before + Texts(sec.lines[..i]))| + |sec.lines[i].text|
  {
    hide ByteLen, Concat, WholeLine;
    var prior, line := before + Texts(sec.lines[..i]), sec.lines[i].text;
    var rest := Texts(sec.lines[i + 1..]);
    assert before + Texts(sec.lines[..i + 1]) == prior + [line];
    assert before + Texts(sec.lines) == (prior + [line]) + rest;
    ConcatOne(prior, line);
    ConcatAppend(prior + [line], rest);
    var at := |Concat(prior)|;
    assert Concat(prior) + line <= text;
    assert text[..at] == Concat(prior) && text[at..at + |line|] == line;
  }

  method ChunkSection(title: string, text: string, offset: nat, max: nat, sec: Section, out0: seq<Chunk>,
                      ghost spans0: seq<Span>, ghost before: seq<string>, ghost first: bool)
    returns (out: seq<Chunk>, ghost spans: seq<Span>)
    requires SectionOk(text, before, sec, first) && Concat(before + Texts(sec.lines)) <= text
    requires Tiles(text, offset, max, |Concat(before)|, out0, spans0)
    ensures Tiles(text, offset, max, |Concat(before + Texts(sec.lines))|, out, spans)
    ensures var start, stop := |Concat(before)|, |Concat(before + Texts(sec.lines))|;
      Grows(text, max, Span(start, stop), out0, spans0, out, spans, Crumb(title, sec.head), start, stop)
  {
    hide Tiles, Pending, Concat, LineAt, LineOk, Packed, AtLineStart, InsideLong, StartsLong;
    ghost var stop := |Concat(before + Texts(sec.lines))|;
    var crumb := Crumb(title, sec.head);
    var b := EMPTY;
    out, spans := out0, spans0;
    ghost var start := |Concat(before)|;
    ghost var whole, lo, at := Span(start, stop), start, start;
    assert before + Texts(sec.lines[..0]) == before;
    TilesSameLength(text, offset, max, start, out, spans);
    EmptyPending(text, offset, max, start, out, spans);
    for i := 0 to |sec.lines|
      invariant at == |Concat(before + Texts(sec.lines[..i]))| && start <= lo <= at
      invariant Pending(text, offset, max, lo, at, b, out, spans)
      invariant Grows(text, max, whole, out0, spans0, out, spans, crumb, start, lo)
      invariant Begins(text, max, start, PrevEnd(spans, |spans|), lo)
      invariant lo < at ==> AtLineStart(text, at)
    {
      LineStands(text, before, sec, i);
      ghost var out1, spans1, lo1 := out, spans, lo;
      var line := sec.lines[i];
      b, out, spans, lo := AddLine(text, offset, max, crumb, line.text, line.start, b, out, spans, lo, at, whole);
      GrowsChain(text, max, whole, out0, spans0, out1, spans1, out, spans, crumb, start, lo1, lo, lo);
      LineIsWhole(text, sec.lines[i].text, sec.lines[i].start, at);
      at := at + |sec.lines[i].text|;
      PendingBounds(text, offset, max, lo, at, b, out, spans);
    }
    assert sec.lines[..|sec.lines|] == sec.lines;
    ghost var out1, spans1 := out, spans;
    assert Packed(text, max, Span(lo, at), stop) by { StopsHere(text, max, lo, at); }
    out, spans := Flush(text, offset, max, crumb, b, out, spans, lo, at, whole);
    GrowsChain(text, max, whole, out0, spans0, out1, spans1, out, spans, crumb, start, lo, at, at);
  }

  lemma StopsHere(text: string, max: nat, lo: nat, hi: nat)
    ensures Packed(text, max, Span(lo, hi), hi)
  {
  }

  lemma PendingBounds(text: string, offset: nat, max: nat, lo: nat, hi: nat, b: Buffer, out: seq<Chunk>,
                      spans: seq<Span>)
    requires Pending(text, offset, max, lo, hi, b, out, spans)
    ensures lo <= hi
  {
  }

  /** The chunk lies inside section `s`, carries its breadcrumb, starts where the section starts or
      the chunk before it ended, unless an over-long line gave up what was blank between, and ends
      where the section ends or where the next line would take it over the limit. */
  ghost predicate Owned(title: string, text: string, max: nat, secs: seq<Section>, c: Chunk, span: Span, prev: nat,
                        s: int) {
    && 0 <= s < |secs|
    && c.breadcrumb == (match secs[s].head
                        case None => title
                        case Some(h) => if h == title then title else title + " \U{203A} " + h)
    && |Concat(AllTexts(secs[..s]))| <= span.start && span.end <= |Concat(AllTexts(secs[..s + 1]))|
    && Packed(text, max, span, |Concat(AllTexts(secs[..s + 1]))|)
    && Begins(text, max, |Concat(AllTexts(secs[..s]))|, prev, span.start)
  }

  ghost predicate HasOwner(title: string, text: string, max: nat, secs: seq<Section>, c: Chunk, span: Span,
                           prev: nat) {
    exists s :: Owned(title, text, max, secs, c, span, prev, s)
  }

  ghost predicate AllOwned(title: string, text: string, max: nat, secs: seq<Section>, out: seq<Chunk>,
                           spans: seq<Span>) {
    && |spans| == |out|
    && forall k :: 0 <= k < |out| ==> HasOwner(title, text, max, secs, out[k], spans[k], PrevEnd(spans, k))
  }

  /** Some spans and sections make `out` a chunking of the text. */
  ghost predicate Chunked(title: string, text: string, offset: nat, max: nat, out: seq<Chunk>) {
    exists spans, secs ::
      && Tiles(text, offset, max, |text|, out, spans) && Sectioned(text, secs) && Concat(AllTexts(secs)) == text
      && AllOwned(title, text, max, secs, out, spans)
  }

  /** The chunks tile the whole text, for every text, limit and offset; each lies inside one
      section, under that section's breadcrumb, and none is cut short. */
  method ChunkText(title: string, text: string, offset: nat, max: nat)
    returns (out: seq<Chunk>, ghost spans: seq<Span>, ghost secs: seq<Section>)
    ensures Tiles(text, offset, max, |text|, out, spans)
    ensures Sectioned(text, secs) && Concat(AllTexts(secs)) == text && AllOwned(title, text, max, secs, out, spans)
    ensures Chunked(title, text, offset, max, out)
  {
    hide Tiles, Concat, SectionOk, AllTexts, Owned;
    var sections := SplitSections(text);
    secs := sections;
    out, spans := [], [];
    NothingTiled(text, offset, max, sections);
    for s := 0 to |sections|
      invariant Tiles(text, offset, max, |Concat(AllTexts(sections[..s]))|, out, spans)
      invariant AllOwned(title, text, max, sections, out, spans)
    {
      ghost var before := AllTexts(sections[..s]);
      SectionStands(text, sections, s);
      ghost var out1, spans1 := out, spans;
      out, spans := ChunkSection(title, text, offset, max, sections[s], out, spans, before, s == 0);
      SectionOwns(title, text, max, sections, s, out1, spans1, out, spans);
    }
    assert sections[..|sections|] == sections;
  }

  lemma NothingTiled(text: string, offset: nat, max: nat, secs: seq<Section>)
    ensures secs[..0] == [] && Concat(AllTexts([])) == [] && Tiles(text, offset, max, 0, [], [])
  {
  }

  lemma SectionStands(text: string, secs: seq<Section>, s: nat)
    requires s < |secs| && Sectioned(text, secs) && Concat(AllTexts(secs)) == text
    ensures SectionOk(text, AllTexts(secs[..s]), secs[s], s == 0)
    ensures AllTexts(secs[..s + 1]) == AllTexts(secs[..s]) + Texts(secs[s].lines)
    ensures Concat(AllTexts(secs[..s]) + Texts(secs[s].lines)) <= text
  {
    hide Concat, SectionOk, Texts;
    assert secs[..s + 1][..s] == secs[..s];
    TextPrefix(secs, s + 1);
  }

  lemma {:induction false} TextPrefix(secs: seq<Section>, s: nat)
    requires s <= |secs|
    ensures Concat(AllTexts(secs[..s])) <= Concat(AllTexts(secs))
    decreases |secs| - s
  {
    hide Concat, Texts;
    if s < |secs| {
      TextPrefix(secs, s + 1);
      assert secs[..s + 1][..s] == secs[..s];
      ConcatAppend(AllTexts(secs[..s]), Texts(secs[s].lines));
    } else {
      assert secs[..s] == secs;
    }
  }

  lemma SectionOwns(title: string, text: string, max: nat, secs: seq<Section>, s: nat, out1: seq<Chunk>,
                    spans1: seq<Span>, out: seq<Chunk>, spans: seq<Span>)
    requires s < |secs| && AllOwned(title, text, max, secs, out1, spans1)
    requires AllTexts(secs[..s + 1]) == AllTexts(secs[..s]) + Texts(secs[s].lines)
    requires var start, stop := |Concat(AllTexts(secs[..s]))|, |Concat(AllTexts(secs[..s]) + Texts(secs[s].lines))|;
      Grows(text, max, Span(start, stop), out1, spans1, out, spans, Crumb(title, secs[s].head), start, stop)
    ensures AllOwned(title, text, max, secs, out, spans)
  {
    hide Packed, StartsLong, AllTexts, Texts, Concat;
    CrumbIs(title, secs[s].head);
    hide Crumb;
    forall k | 0 <= k < |out| ensures HasOwner(title, text, max, secs, out[k], spans[k], PrevEnd(spans, k)) {
      if k < |out1| {
        assert out[k] == out1[k] && spans[k] == spans1[k] && PrevEnd(spans, k) == PrevEnd(spans1, k);
        assert HasOwner(title, text, max, secs, out1[k], spans1[k], PrevEnd(spans1, k));
      } else {
        assert Owned(title, text, max, secs, out[k], spans[k], PrevEnd(spans, k), s);
      }
    }
  }
}
