/** Trimming and splitting of Rust strings, as sequences of Unicode scalar values. */
module Text {

  /** The Unicode White_Space property. */
  predicate IsWhitespace(c: char) {
    || '\U{9}' <= c <= '\U{D}' || c == ' ' || c == '\U{85}' || c == '\U{A0}' || c == '\U{1680}'
    || '\U{2000}' <= c <= '\U{200A}' || c == '\U{2028}' || c == '\U{2029}' || c == '\U{202F}'
    || c == '\U{205F}' || c == '\U{3000}'
  }

  /** Its twenty-five code points. */
  lemma WhitespaceIs(c: char)
    ensures IsWhitespace(c) <==> c as int in {
      9, 10, 11, 12, 13, 0x20, 0x85, 0xA0, 0x1680, 0x2000, 0x2001, 0x2002, 0x2003, 0x2004, 0x2005, 0x2006, 0x2007,
      0x2008, 0x2009, 0x200A, 0x2028, 0x2029, 0x202F, 0x205F, 0x3000}
  {
  }

  predicate Blank(s: string) {
    forall i :: 0 <= i < |s| ==> IsWhitespace(s[i])
  }

  function DropWhile(p: char -> bool, s: string): string {
    if s != [] && p(s[0]) then DropWhile(p, s[1..]) else s
  }

  function DropLastWhile(p: char -> bool, s: string): string {
    if s != [] && p(s[|s| - 1]) then DropLastWhile(p, s[..|s| - 1]) else s
  }

  function TrimStart(s: string): string { DropWhile(IsWhitespace, s) }

  function TrimEnd(s: string): string { DropLastWhile(IsWhitespace, s) }

  function Trim(s: string): string { TrimEnd(TrimStart(s)) }

  /** The pieces between separators; always at least one. */
  function Split(s: string, sep: char): (pieces: seq<string>)
    ensures pieces != []
  {
    if s == [] then [[]]
    else
      var rest := Split(s[1..], sep);
      if s[0] == sep then [[]] + rest else [[s[0]] + rest[0]] + rest[1..]
  }

  /** The part of `s` from `a` to `b` lies between two separators or ends and has none inside. */
  ghost predicate PieceAt(s: string, sep: char, a: int, b: int) {
    && 0 <= a <= b <= |s| && (a == 0 || s[a - 1] == sep) && (b == |s| || s[b] == sep)
    && forall i :: a <= i < b ==> s[i] != sep
  }

  lemma PieceShifts(s: string, sep: char, x: nat, y: nat)
    requires s != [] && PieceAt(s[1..], sep, x, y)
    ensures x > 0 || s[0] == sep ==> PieceAt(s, sep, x + 1, y + 1)
    ensures x == 0 && s[0] != sep ==> PieceAt(s, sep, 0, y + 1)
  {
    assert forall i :: 1 <= i < |s| ==> s[i] == s[1..][i - 1];
  }

  lemma PieceUnshifts(s: string, sep: char, a: nat, b: nat)
    requires s != [] && PieceAt(s, sep, a, b)
    ensures a > 0 ==> PieceAt(s[1..], sep, a - 1, b - 1)
    ensures a == 0 && b > 0 ==> s[0] != sep && PieceAt(s[1..], sep, 0, b - 1)
  {
    assert forall i :: 1 <= i < |s| ==> s[i] == s[1..][i - 1];
  }

  lemma SliceShifts(s: string, x: nat, y: nat)
    requires s != [] && x <= y < |s|
    ensures s[x + 1..y + 1] == s[1..][x..y] && s[0..y + 1] == [s[0]] + s[1..][0..y]
  {
  }

  lemma SplitStep(s: string, sep: char, k: nat)
    requires s != [] && k < |Split(s, sep)|
    ensures var rest := Split(s[1..], sep);
      if s[0] == sep then |Split(s, sep)| == |rest| + 1 && Split(s, sep)[k] == (if k == 0 then [] else rest[k - 1])
      else |Split(s, sep)| == |rest| && Split(s, sep)[k] == (if k == 0 then [s[0]] + rest[0] else rest[k])
  {
  }

  lemma SplitLength(s: string, sep: char)
    requires s != []
    ensures |Split(s, sep)| == |Split(s[1..], sep)| + if s[0] == sep then 1 else 0
  {
  }

  lemma {:induction false} PieceIsBetween(s: string, sep: char, k: nat) returns (a: nat, b: nat)
    requires k < |Split(s, sep)|
    ensures PieceAt(s, sep, a, b) && Split(s, sep)[k] == s[a..b] && (k == 0 <==> a == 0)
  {
    if s == [] || (s[0] == sep && k == 0) {
      a, b := 0, 0;
    } else {
      SplitStep(s, sep, k);
      hide Split, PieceAt;
      var x, y := PieceIsBetween(s[1..], sep, if s[0] == sep then k - 1 else k);
      PieceShifts(s, sep, x, y);
      PieceFits(s[1..], sep, x, y);
      SliceShifts(s, x, y);
      a, b := if k == 0 then 0 else x + 1, y + 1;
    }
  }

  lemma PieceFits(s: string, sep: char, a: int, b: int)
    requires PieceAt(s, sep, a, b)
    ensures 0 <= a <= b <= |s|
  {
  }

  lemma {:induction false} BetweenIsPiece(s: string, sep: char, a: nat, b: nat) returns (k: nat)
    requires PieceAt(s, sep, a, b)
    ensures k < |Split(s, sep)| && Split(s, sep)[k] == s[a..b] && (k == 0 <==> a == 0)
  {
    if s == [] || b == 0 {
      k := 0;
    } else {
      PieceUnshifts(s, sep, a, b);
      SplitLength(s, sep);
      PieceFits(s, sep, a, b);
      hide Split, PieceAt;
      var x := if a > 0 then a - 1 else 0;
      var j := BetweenIsPiece(s[1..], sep, x, b - 1);
      k := if s[0] == sep then j + 1 else j;
      SplitStep(s, sep, k);
      SliceShifts(s, x, b - 1);
    }
  }

  lemma {:induction false} DropWhileSpec(p: char -> bool, s: string) returns (k: nat)
    ensures k <= |s| && DropWhile(p, s) == s[k..]
    ensures forall i :: 0 <= i < k ==> p(s[i])
    ensures k < |s| ==> !p(s[k])
  {
    k := 0;
    if s != [] && p(s[0]) {
      var j := DropWhileSpec(p, s[1..]);
      assert s[1..][j..] == s[j + 1..];
      assert forall i :: 0 <= i < j ==> s[1..][i] == s[i + 1];
      k := j + 1;
    }
  }

  lemma {:induction false} DropLastWhileSpec(p: char -> bool, s: string) returns (k: nat)
    ensures k <= |s| && DropLastWhile(p, s) == s[..k]
    ensures forall i :: k <= i < |s| ==> p(s[i])
    ensures k > 0 ==> !p(s[k - 1])
  {
    k := |s|;
    if s != [] && p(s[|s| - 1]) {
      k := DropLastWhileSpec(p, s[..|s| - 1]);
      assert s[..|s| - 1][..k] == s[..k];
    } else {
      assert s[..|s|] == s;
    }
  }

  /** What is left after trimming lies between two ends that are no whitespace. */
  lemma TrimSpec(s: string) returns (a: nat, b: nat)
    ensures a <= b <= |s| && Trim(s) == s[a..b]
    ensures forall i :: 0 <= i < |s| && !(a <= i < b) ==> IsWhitespace(s[i])
    ensures a < b ==> !IsWhitespace(s[a]) && !IsWhitespace(s[b - 1])
  {
    a := DropWhileSpec(IsWhitespace, s);
    var k := DropLastWhileSpec(IsWhitespace, s[a..]);
    b := a + k;
    assert s[a..][..k] == s[a..b];
    forall i | 0 <= i < |s| && !(a <= i < b) ensures IsWhitespace(s[i]) {
      if i >= a { assert s[a..][i - a] == s[i]; }
    }
    if a < b { assert s[a..][k - 1] == s[b - 1]; }
  }

  /** A string trims to nothing exactly when it is all whitespace. */
  lemma TrimEmpty(s: string)
    ensures Trim(s) == [] <==> Blank(s)
    ensures TrimStart(s) == [] <==> Blank(s)
  {
    var k := DropWhileSpec(IsWhitespace, s);
    var j := DropLastWhileSpec(IsWhitespace, s[k..]);
    if k < |s| { assert s[k..][0] == s[k]; }
  }
}
