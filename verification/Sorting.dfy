/** Orders, stable sorting and options: the library pieces the repository takes
    from Rust's standard library, with the facts the models need about them. */
module Sorting {

  datatype Option<+T> = None | Some(value: T)

  /** A byte string. Rust strings are modelled by their UTF-8 bytes, which is also
      how Rust orders them. Only values below 256 occur; nothing depends on it. */
  type Bytes = seq<nat>

  predicate HasPrefix<T(==)>(s: seq<T>, p: seq<T>) { |p| <= |s| && s[..|p|] == p }

  lemma PrefixIs(s: Bytes, p: Bytes)
    ensures HasPrefix(s, p) <==> p <= s
  {
  }

  function Min(a: nat, b: nat): nat { if a <= b then a else b }

  function Max(a: nat, b: nat): nat { if a <= b then b else a }

  const U64_MAX: nat := 0xFFFF_FFFF_FFFF_FFFF

  function SatAdd(a: nat, b: nat): nat { if a + b > U64_MAX then U64_MAX else a + b }

  // ---- orders ----

  ghost predicate TotalOrder<T(!new)>(le: (T, T) -> bool) {
    && (forall a, b :: le(a, b) || le(b, a))
    && (forall a, b :: le(a, b) && le(b, a) ==> a == b)
    && (forall a, b, c :: le(a, b) && le(b, c) ==> le(a, c))
  }

  /** A total preorder: what a comparison by key gives when keys can tie. */
  ghost predicate TotalPreorder<T(!new)>(le: (T, T) -> bool) {
    && (forall a, b :: le(a, b) || le(b, a))
    && (forall a, b, c :: le(a, b) && le(b, c) ==> le(a, c))
  }

  /** Lexicographic order on sequences, a prefix coming first. */
  predicate LexLe(a: seq<nat>, b: seq<nat>) {
    a == [] || (b != [] && (a[0] < b[0] || (a[0] == b[0] && LexLe(a[1..], b[1..]))))
  }

  /** Strictly before, as texts are: at the first difference, or as a proper prefix. */
  ghost predicate Precedes(a: seq<nat>, b: seq<nat>) {
    a < b || exists k :: DiffersAt(a, b, k)
  }

  ghost predicate DiffersAt(a: seq<nat>, b: seq<nat>, k: int) {
    0 <= k < |a| && k < |b| && a[k] < b[k] && forall i :: 0 <= i < k ==> a[i] == b[i]
  }

  lemma {:induction false} LexMeans(a: seq<nat>, b: seq<nat>)
    ensures LexLe(a, b) <==> a == b || Precedes(a, b)
  {
    if a != [] && b != [] {
      if a[0] == b[0] {
        LexMeans(a[1..], b[1..]);
        assert a == [a[0]] + a[1..] && b == [b[0]] + b[1..];
        if k :| DiffersAt(a, b, k) { assert DiffersAt(a[1..], b[1..], k - 1); }
        if k :| DiffersAt(a[1..], b[1..], k) {
          forall i | 0 <= i < k + 1 ensures a[i] == b[i] { assert i > 0 ==> a[1..][i - 1] == b[1..][i - 1]; }
          assert a[k + 1] == a[1..][k] && b[k + 1] == b[1..][k];
          assert DiffersAt(a, b, k + 1);
        }
      } else if a[0] < b[0] {
        assert DiffersAt(a, b, 0);
      }
    }
  }

  lemma {:induction false} LexTotal(a: seq<nat>, b: seq<nat>)
    ensures LexLe(a, b) || LexLe(b, a)
    ensures LexLe(a, b) && LexLe(b, a) ==> a == b
  {
    if a != [] && b != [] && a[0] == b[0] {
      LexTotal(a[1..], b[1..]);
      assert a == [a[0]] + a[1..] && b == [b[0]] + b[1..];
    }
  }

  lemma {:induction false} LexTransitive(a: seq<nat>, b: seq<nat>, c: seq<nat>)
    requires LexLe(a, b) && LexLe(b, c)
    ensures LexLe(a, c)
  {
    if a != [] && a[0] == b[0] == c[0] {
      LexTransitive(a[1..], b[1..], c[1..]);
    }
  }

  lemma LexIsTotalOrder()
    ensures TotalOrder(LexLe)
  {
    forall a: seq<nat>, b: seq<nat> { LexTotal(a, b); }
    forall a: seq<nat>, b: seq<nat>, c: seq<nat> | LexLe(a, b) && LexLe(b, c) { LexTransitive(a, b, c); }
  }

  // ---- the smaller of two optional values, a present one beating an absent one ----

  function MinOption<T>(le: (T, T) -> bool, a: Option<T>, b: Option<T>): Option<T> {
    match (a, b)
    case (None, x) => x
    case (x, None) => x
    case (Some(x), Some(y)) => if le(x, y) then a else b
  }

  lemma MinOptionIsJoin<T(!new)>(le: (T, T) -> bool, a: Option<T>, b: Option<T>, c: Option<T>)
    requires TotalOrder(le)
    ensures MinOption(le, a, a) == a
    ensures MinOption(le, a, b) == MinOption(le, b, a)
    ensures MinOption(le, MinOption(le, a, b), c) == MinOption(le, a, MinOption(le, b, c))
  {
  }

  // ---- sorting ----

  ghost predicate Sorted<T>(le: (T, T) -> bool, s: seq<T>) {
    forall i, j :: 0 <= i < j < |s| ==> le(s[i], s[j])
  }

  /** Stable: an element goes in front of the later elements it ties with. */
  function Insert<T>(le: (T, T) -> bool, x: T, s: seq<T>): seq<T> {
    if s == [] then [x]
    else if le(x, s[0]) then [x] + s
    else [s[0]] + Insert(le, x, s[1..])
  }

  function Sort<T>(le: (T, T) -> bool, s: seq<T>): seq<T> {
    if s == [] then [] else Insert(le, s[0], Sort(le, s[1..]))
  }

  lemma {:induction false} InsertSorted<T(!new)>(le: (T, T) -> bool, x: T, s: seq<T>)
    requires TotalPreorder(le) && Sorted(le, s)
    ensures Sorted(le, Insert(le, x, s))
    ensures multiset(Insert(le, x, s)) == multiset{x} + multiset(s)
  {
    if s != [] {
      assert s == [s[0]] + s[1..];
      if le(x, s[0]) {
        assert forall y :: y in s ==> le(x, y);
      } else {
        hide TotalPreorder;
        InsertSorted(le, x, s[1..]);
        var t := Insert(le, x, s[1..]);
        PreorderTotal(le, x, s[0]);
        forall y | y in t ensures le(s[0], y) {
          assert y in multiset(t);
        }
      }
    }
  }

  lemma PreorderTotal<T(!new)>(le: (T, T) -> bool, a: T, b: T)
    requires TotalPreorder(le)
    ensures le(a, b) || le(b, a)
  {
  }

  lemma {:induction false} SortSorts<T(!new)>(le: (T, T) -> bool, s: seq<T>)
    requires TotalPreorder(le)
    ensures Sorted(le, Sort(le, s))
    ensures multiset(Sort(le, s)) == multiset(s)
    ensures |Sort(le, s)| == |s|
    ensures forall x :: x in Sort(le, s) <==> x in s
  {
    if s != [] {
      SortSorts(le, s[1..]);
      InsertSorted(le, s[0], Sort(le, s[1..]));
      assert s == [s[0]] + s[1..];
    }
    assert |multiset(Sort(le, s))| == |multiset(s)|;
    forall x ensures x in Sort(le, s) <==> x in s {
      assert x in Sort(le, s) <==> x in multiset(Sort(le, s));
    }
  }

  /** `xs` says where each element of `t` stood in `s`. */
  ghost predicate Places<T>(s: seq<T>, t: seq<T>, xs: seq<nat>) {
    && |xs| == |t| == |s| && (forall i :: 0 <= i < |xs| ==> xs[i] < |s| && t[i] == s[xs[i]])
    && (forall i, j :: 0 <= i < j < |xs| ==> xs[i] != xs[j])
  }

  /** Elements that tie stand in the order they had. */
  ghost predicate KeepsTies<T>(le: (T, T) -> bool, t: seq<T>, xs: seq<nat>) {
    |xs| == |t| && forall i, j :: 0 <= i < j < |t| && le(t[j], t[i]) ==> xs[i] < xs[j]
  }

  /** Sorting rearranges, and is stable. */
  lemma {:induction false} SortIsStable<T(!new)>(le: (T, T) -> bool, s: seq<T>) returns (xs: seq<nat>)
    requires TotalPreorder(le)
    ensures Places(s, Sort(le, s), xs) && KeepsTies(le, Sort(le, s), xs)
  {
    xs := [];
    if s != [] {
      var rest := s[1..];
      var ys := SortIsStable(le, rest);
      SortSorts(le, rest);
      var p := InsertPlace(le, s[0], Sort(le, rest));
      var zs := seq(|ys|, i requires 0 <= i < |ys| => ys[i] + 1);
      xs := zs[..p] + [0] + zs[p..];
      Reinserted(le, s, Sort(le, rest), ys, zs, p);
    }
  }

  lemma {:induction false} InsertPlace<T(!new)>(le: (T, T) -> bool, x: T, s: seq<T>) returns (p: nat)
    requires TotalPreorder(le) && Sorted(le, s)
    ensures p <= |s| && Insert(le, x, s) == s[..p] + [x] + s[p..]
    ensures forall i :: 0 <= i < p ==> !le(x, s[i])
  {
    p := 0;
    if s != [] && !le(x, s[0]) {
      var r := InsertPlace(le, x, s[1..]);
      p := r + 1;
      assert [s[0]] + (s[1..][..p - 1] + [x] + s[1..][p - 1..]) == s[..p] + [x] + s[p..];
      assert forall i :: 1 <= i < p ==> s[i] == s[1..][i - 1];
    } else {
      assert s[..0] + [x] + s[0..] == [x] + s;
    }
  }

  lemma Reinserted<T>(le: (T, T) -> bool, s: seq<T>, t: seq<T>, ys: seq<nat>, zs: seq<nat>, p: nat)
    requires s != [] && Places(s[1..], t, ys) && KeepsTies(le, t, ys) && p <= |t|
    requires |zs| == |ys| && forall i :: 0 <= i < |zs| ==> zs[i] == ys[i] + 1
    requires forall i :: 0 <= i < p ==> !le(s[0], t[i])
    ensures |zs| == |t|
    ensures var u, xs := t[..p] + [s[0]] + t[p..], zs[..p] + [0] + zs[p..]; Places(s, u, xs) && KeepsTies(le, u, xs)
  {
    hide Places, KeepsTies;
    PlacesAre(s[1..], t, ys);
    var u, xs := t[..p] + [s[0]] + t[p..], zs[..p] + [0] + zs[p..];
    assert |u| == |xs| == |t| + 1 && u[p] == s[0] && xs[p] == 0;
    forall i | 0 <= i < |u| && i != p ensures u[i] == t[Skip(i, p)] && xs[i] == ys[Skip(i, p)] + 1 {}
    PlacesAfter(s, t, u, ys, xs, p);
    TiesAfter(le, s[0], t, u, ys, xs, p);
  }

  /** Where index `i` was before something went in at `p`. */
  function Skip(i: int, p: int): int { if i < p then i else i - 1 }

  lemma PlacesAre<T>(s: seq<T>, t: seq<T>, xs: seq<nat>)
    requires Places(s, t, xs)
    ensures |xs| == |t| == |s|
  {
  }

  lemma PlacesAfter<T>(s: seq<T>, t: seq<T>, u: seq<T>, ys: seq<nat>, xs: seq<nat>, p: nat)
    requires s != [] && Places(s[1..], t, ys) && p <= |t| && |u| == |xs| == |t| + 1 && u[p] == s[0] && xs[p] == 0
    requires forall i :: 0 <= i < |u| && i != p ==> u[i] == t[Skip(i, p)] && xs[i] == ys[Skip(i, p)] + 1
    ensures Places(s, u, xs)
  {
    forall i | 0 <= i < |xs| ensures xs[i] < |s| && u[i] == s[xs[i]] {
      var k := Skip(i, p);
      if i != p { assert t[k] == s[1..][ys[k]] == s[ys[k] + 1]; }
    }
    forall i, j | 0 <= i < j < |xs| ensures xs[i] != xs[j] {
      if i != p && j != p { assert ys[Skip(i, p)] != ys[Skip(j, p)]; }
    }
  }

  lemma TiesAfter<T>(le: (T, T) -> bool, x: T, t: seq<T>, u: seq<T>, ys: seq<nat>, xs: seq<nat>, p: nat)
    requires KeepsTies(le, t, ys) && p <= |t| && |u| == |xs| == |t| + 1 && u[p] == x && xs[p] == 0
    requires forall i :: 0 <= i < |u| && i != p ==> u[i] == t[Skip(i, p)] && xs[i] == ys[Skip(i, p)] + 1
    requires forall i :: 0 <= i < p ==> !le(x, t[i])
    ensures KeepsTies(le, u, xs)
  {
    forall i, j | 0 <= i < j < |u| && le(u[j], u[i]) ensures xs[i] < xs[j] {
      if i != p && j != p { assert le(t[Skip(j, p)], t[Skip(i, p)]); }
    }
  }

  lemma SortedHead<T(!new)>(le: (T, T) -> bool, s: seq<T>, x: T)
    requires TotalOrder(le) && Sorted(le, s) && x in multiset(s)
    ensures s != [] && le(s[0], x) && Sorted(le, s[1..])
  {
    assert x in s;
  }

  lemma HeadAndTail<T>(s: seq<T>)
    requires s != []
    ensures s == [s[0]] + s[1..] && multiset(s[1..]) == multiset(s) - multiset{s[0]}
  {
    assert s == [s[0]] + s[1..];
  }

  /** Under a total order there is only one way to arrange a multiset. */
  lemma {:induction false} SortedUnique<T(!new)>(le: (T, T) -> bool, s: seq<T>, t: seq<T>)
    requires TotalOrder(le) && Sorted(le, s) && Sorted(le, t)
    requires multiset(s) == multiset(t)
    ensures s == t
  {
    hide TotalOrder, Sorted;
    assert |multiset(s)| == |s| && |multiset(t)| == |t|;
    if s != [] {
      HeadAndTail(s);
      HeadAndTail(t);
      SortedHead(le, t, s[0]);
      SortedHead(le, s, t[0]);
      SameIfMutual(le, s[0], t[0]);
      SortedUnique(le, s[1..], t[1..]);
    }
  }

  lemma SameIfMutual<T(!new)>(le: (T, T) -> bool, a: T, b: T)
    requires TotalOrder(le) && le(a, b) && le(b, a)
    ensures a == b
  {
  }
}
