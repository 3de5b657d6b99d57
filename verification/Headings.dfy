/** Which lines are fences and which are headings (crates/mem-corpus/src/chunk.rs): the code, and an
    exact account of it on the characters of a line. */
module Headings {
  import opened Sorting
  import opened Text

  // ---- headings and fences ----

  predicate IsFence(line: string) {
    var t := TrimStart(line);
    HasPrefix(t, "```") || HasPrefix(t, "~~~")
  }

  function CountLeading(s: string, c: char): nat {
    if s != [] && s[0] == c then 1 + CountLeading(s[1..], c) else 0
  }

  lemma {:induction false} CountLeadingBound(s: string, c: char)
    ensures CountLeading(s, c) <= |s|
    ensures forall i :: 0 <= i < CountLeading(s, c) ==> s[i] == c
    ensures CountLeading(s, c) < |s| ==> s[CountLeading(s, c)] != c
  {
    if s != [] && s[0] == c {
      CountLeadingBound(s[1..], c);
      assert forall i :: 1 <= i < |s| ==> s[i] == s[1..][i - 1];
    }
  }

  function HeadingWith(t: string, marker: char): Option<string> {
    CountLeadingBound(t, marker);
    var level := CountLeading(t, marker);
    var rest := t[level..];
    if 1 <= level <= 6 && HasPrefix(rest, " ") then
      var h := Trim(DropLastWhile((c: char) => c == marker, Trim(rest[1..])));
      if h != [] then Some(h) else None
    else None
  }

  function Heading(line: string): Option<string> {
    var t := TrimEnd(line);
    if HeadingWith(t, '#').Some? then HeadingWith(t, '#') else HeadingWith(t, '=')
  }

  function Repeat(c: char, n: nat): string { seq(n, _ => c) }

  lemma {:induction false} CountRepeated(c: char, n: nat, rest: string)
    requires rest == [] || rest[0] != c
    ensures CountLeading(Repeat(c, n) + rest, c) == n
  {
    var s := Repeat(c, n) + rest;
    if n > 0 {
      assert s[1..] == Repeat(c, n - 1) + rest;
      CountRepeated(c, n - 1, rest);
    } else {
      assert s == rest;
    }
  }

  lemma {:induction false} DropTail(p: char -> bool, s: string, tail: string)
    requires s != [] && !p(s[|s| - 1]) && forall i :: 0 <= i < |tail| ==> p(tail[i])
    ensures DropLastWhile(p, s + tail) == s
  {
    if tail == [] {
      assert s + tail == s;
    } else {
      assert (s + tail)[..|s + tail| - 1] == s + tail[..|tail| - 1];
      DropTail(p, s, tail[..|tail| - 1]);
    }
  }

  // ---- what a fence line is ----

  /** Three backticks or three tildes at `k`, and only whitespace before. */
  ghost predicate FenceAt(line: string, k: int) {
    && 0 <= k && k + 3 <= |line| && Blank(line[..k])
    && ((line[k] == '`' && line[k + 1] == '`' && line[k + 2] == '`')
        || (line[k] == '~' && line[k + 1] == '~' && line[k + 2] == '~'))
  }

  ghost predicate FenceLine(line: string) { exists k :: FenceAt(line, k) }

  lemma FenceExactly(line: string)
    ensures IsFence(line) <==> FenceLine(line)
  {
    var k := DropWhileSpec(IsWhitespace, line);
    var t := line[k..];
    assert |t| >= 3 ==> t[..3] == [line[k], line[k + 1], line[k + 2]];
    assert "```" == ['`', '`', '`'] && "~~~" == ['~', '~', '~'];
    if IsFence(line) { assert FenceAt(line, k); }
    if j :| FenceAt(line, j) {
      assert !IsWhitespace('`') && !IsWhitespace('~');
      SameStart(line, k, j);
    }
  }

  /** Only one position has whitespace before it and none at it. */
  lemma SameStart(line: string, k: nat, j: nat)
    requires k <= |line| && forall i :: 0 <= i < k ==> IsWhitespace(line[i])
    requires k < |line| ==> !IsWhitespace(line[k])
    requires j < |line| && Blank(line[..j]) && !IsWhitespace(line[j])
    ensures j == k
  {
    assert forall i :: 0 <= i < j ==> line[..j][i] == line[i];
  }

  // ---- what a heading is ----

  /** From `b` on: whitespace, then a closing run of markers, then whitespace. The run is taken as
      a whole, so without space before it the title does not end in the marker. */
  ghost predicate Closes(line: string, marker: char, b: int, c: int, d: int) {
    && 0 < b <= c <= d <= |line| && Blank(line[b..c]) && Blank(line[d..])
    && (forall i :: c <= i < d ==> line[i] == marker)
    && ((b < c && c < d) || line[b - 1] != marker)
  }

  /** One to six markers, a space, and the title from `a` to `b` between whitespace, with an
      optional closing run of markers. */
  ghost predicate HeadingAt(line: string, marker: char, level: int, a: int, b: int, c: int, d: int, h: string) {
    && (marker == '#' || marker == '=') && 1 <= level <= 6 && level < |line|
    && (forall i :: 0 <= i < level ==> line[i] == marker) && line[level] == ' '
    && level < a < b <= |line| && h == line[a..b] && Blank(line[level..a])
    && !IsWhitespace(line[a]) && !IsWhitespace(line[b - 1])
    && Closes(line, marker, b, c, d)
  }

  lemma BlankPart(s: string, a: nat, b: nat)
    requires a <= b <= |s|
    ensures Blank(s[a..b]) <==> forall i :: a <= i < b ==> IsWhitespace(s[i])
  {
    if Blank(s[a..b]) {
      forall i | a <= i < b ensures IsWhitespace(s[i]) { assert s[a..b][i - a] == s[i]; }
    }
  }

  /** Trimming a part of a string, told by positions in it. */
  lemma TrimAt(s: string, lo: nat, hi: nat) returns (a: nat, b: nat)
    requires lo <= hi <= |s|
    ensures lo <= a <= b <= hi && Trim(s[lo..hi]) == s[a..b]
    ensures forall i :: lo <= i < a || b <= i < hi ==> IsWhitespace(s[i])
    ensures a < b ==> !IsWhitespace(s[a]) && !IsWhitespace(s[b - 1])
  {
    var t := s[lo..hi];
    var x, y := TrimSpec(t);
    a, b := lo + x, lo + y;
    assert forall i :: lo <= i < hi ==> s[i] == t[i - lo];
    assert t[x..y] == s[a..b];
  }

  lemma DropLastAt(p: char -> bool, s: string, lo: nat, hi: nat) returns (c: nat)
    requires lo <= hi <= |s|
    ensures lo <= c <= hi && DropLastWhile(p, s[lo..hi]) == s[lo..c]
    ensures (forall i :: c <= i < hi ==> p(s[i])) && (c > lo ==> !p(s[c - 1]))
  {
    var t := s[lo..hi];
    var k := DropLastWhileSpec(p, t);
    c := lo + k;
    assert forall i :: lo <= i < hi ==> s[i] == t[i - lo];
    assert t[..k] == s[lo..c];
  }

  /** What the line is read as is a heading in that sense. */
  lemma HeadingMeans(line: string) returns (marker: char, level: int, a: int, b: int, c: int, d: int)
    requires Heading(line).Some?
    ensures HeadingAt(line, marker, level, a, b, c, d, Heading(line).value)
  {
    hide HeadingWith, HeadingAt;
    var e := DropLastWhileSpec(IsWhitespace, line);
    marker := if HeadingWith(line[..e], '#').Some? then '#' else '=';
    level, a, b, c, d := HeadingParts(line, e, marker);
  }

  lemma HeadingParts(line: string, e: nat, marker: char) returns (level: int, a: int, b: int, c: int, d: int)
    requires (marker == '#' || marker == '=') && e <= |line| && HeadingWith(line[..e], marker).Some?
    requires (forall i :: e <= i < |line| ==> IsWhitespace(line[i])) && (e > 0 ==> !IsWhitespace(line[e - 1]))
    ensures HeadingAt(line, marker, level, a, b, c, d, HeadingWith(line[..e], marker).value)
  {
    hide IsWhitespace, Trim, DropLastWhile, HeadingAt, CountLeading;
    level := LevelOf(line, e, marker);
    var b1, a3;
    a, b1 := TrimAt(line, level + 1, e);
    c := DropLastAt((x: char) => x == marker, line, a, b1);
    a3, b := TrimAt(line, a, c);
    d := e;
    assert a3 < b && a < b1 && a3 == a && b1 == e;
    MakeHeading(line, marker, level, a, b, c, d);
  }

  /** The markers, the space, and the text after them. */
  lemma LevelOf(line: string, e: nat, marker: char) returns (level: nat)
    requires e <= |line| && HeadingWith(line[..e], marker).Some?
    ensures 1 <= level <= 6 && level < e && line[level] == ' ' && forall i :: 0 <= i < level ==> line[i] == marker
    ensures var h := Trim(DropLastWhile((x: char) => x == marker, Trim(line[level + 1..e])));
      h != [] && HeadingWith(line[..e], marker) == Some(h)
  {
    hide Trim, DropLastWhile, IsWhitespace;
    var t := line[..e];
    CountLeadingBound(t, marker);
    level := CountLeading(t, marker);
    assert t[level..][..1] == " " && t[level..][0] == line[level];
    assert t[level..][1..] == line[level + 1..e];
  }

  lemma MakeHeading(line: string, marker: char, level: int, a: int, b: int, c: int, d: int)
    requires (marker == '#' || marker == '=') && 1 <= level <= 6 && level < a < b <= c <= d <= |line|
    requires (forall i :: 0 <= i < level ==> line[i] == marker) && line[level] == ' '
    requires !IsWhitespace(line[a]) && !IsWhitespace(line[b - 1])
    requires forall i :: level < i < a || b <= i < c || d <= i < |line| ==> IsWhitespace(line[i])
    requires line[c - 1] != marker && forall i :: c <= i < d ==> line[i] == marker
    requires d > 0 ==> !IsWhitespace(line[d - 1])
    ensures HeadingAt(line, marker, level, a, b, c, d, line[a..b])
  {
    assert IsWhitespace(' ');
    BlankPart(line, level, a);
    BlankPart(line, b, c);
    BlankPart(line, d, |line|);
    assert line[d..|line|] == line[d..];
  }

  /** And every heading in that sense is read as one, with that title. */
  lemma HeadingReads(line: string, marker: char, level: int, a: int, b: int, c: int, d: int, h: string)
    requires HeadingAt(line, marker, level, a, b, c, d, h)
    ensures Heading(line) == Some(h)
  {
    hide Trim, DropLastWhile, HeadingAt, IsWhitespace, HeadingWith;
    var e := if c < d then d else b;
    HeadingEnds(line, marker, level, a, b, c, d, h);
    var t := line[..e];
    assert TrimEnd(line) == t by { assert line == t + line[e..]; DropTail(IsWhitespace, t, line[e..]); }
    TitleReads(line, marker, level, a, b, c, d, h);
    MarkersRead(line, marker, level, e, h);
  }

  lemma HeadingEnds(line: string, marker: char, level: int, a: int, b: int, c: int, d: int, h: string)
    requires HeadingAt(line, marker, level, a, b, c, d, h)
    ensures var e := if c < d then d else b;
      && (marker == '#' || marker == '=') && 1 <= level <= 6 && h != []
      && 0 <= level < a < e <= |line| && !IsWhitespace(line[e - 1]) && Blank(line[e..])
      && line[level] == ' ' && (forall i :: 0 <= i < level ==> line[i] == marker)
  {
    assert !IsWhitespace('#') && !IsWhitespace('=');
    var e := if c < d then d else b;
    BlankPart(line, b, c);
    BlankPart(line, d, |line|);
    BlankPart(line, e, |line|);
    assert line[d..|line|] == line[d..] && line[e..|line|] == line[e..];
  }

  lemma MarkersRead(line: string, marker: char, level: nat, e: nat, h: string)
    requires (marker == '#' || marker == '=') && 1 <= level <= 6 && level < e <= |line| && h != []
    requires line[level] == ' ' && (forall i :: 0 <= i < level ==> line[i] == marker)
    requires Trim(DropLastWhile((x: char) => x == marker, Trim(line[level + 1..e]))) == h
    ensures var t := line[..e];
      HeadingWith(t, marker) == Some(h) && (marker == '=' ==> HeadingWith(t, '#').None?)
  {
    hide Trim, DropLastWhile, IsWhitespace;
    var t := line[..e];
    assert t == Repeat(marker, level) + t[level..];
    CountRepeated(marker, level, t[level..]);
    assert t[level..][..1] == " " && t[level..][1..] == line[level + 1..e];
    if marker == '=' { assert t[0] == '=' && CountLeading(t, '#') == 0; }
  }

  lemma TitleReads(line: string, marker: char, level: int, a: int, b: int, c: int, d: int, h: string)
    requires HeadingAt(line, marker, level, a, b, c, d, h)
    ensures var e := if c < d then d else b;
      0 <= level < e <= |line| && Trim(DropLastWhile((x: char) => x == marker, Trim(line[level + 1..e]))) == h
  {
    hide Trim, DropLastWhile;
    assert !IsWhitespace('#') && !IsWhitespace('=');
    var e := if c < d then d else b;
    BlankPart(line, level, a);
    BlankPart(line, b, c);
    var end := if c < d then c else b;
    assert !IsWhitespace(line[e - 1]) && line[end - 1] != marker;
    hide IsWhitespace;
    var a1, b1 := TrimAt(line, level + 1, e);
    assert a1 == a && b1 == e;
    var p := (x: char) => x == marker;
    var m := DropLastAt(p, line, a, e);
    assert m == end;
    var a2, b2 := TrimAt(line, a, m);
    assert a2 == a && b2 == b;
  }
}
