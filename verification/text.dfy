/**
 * The handful of Rust `str` operations the parser relies on, over `string`
 * (a sequence of Unicode scalar values, as a Rust `&str` is): `trim`,
 * `starts_with`, `split(" | ")` and `replace(',', "")`.
 */
module Text {
  import opened Wrappers

  /** `char::is_whitespace`: the characters with the Unicode White_Space property. */
  predicate IsWhitespace(c: char) {
    || ('\U{0009}' <= c <= '\U{000D}')
    || c == ' '
    || c == '\U{0085}'
    || c == '\U{00A0}'
    || c == '\U{1680}'
    || ('\U{2000}' <= c <= '\U{200A}')
    || c == '\U{2028}'
    || c == '\U{2029}'
    || c == '\U{202F}'
    || c == '\U{205F}'
    || c == '\U{3000}'
  }

  predicate AllWhitespace(s: string) {
    forall i :: 0 <= i < |s| ==> IsWhitespace(s[i])
  }

  /** Neither end of `s` is whitespace: what `trim` leaves behind. */
  predicate IsTrimmed(s: string) {
    s == [] || (!IsWhitespace(s[0]) && !IsWhitespace(s[|s| - 1]))
  }

  /** `str::trim_start`: drops the leading whitespace. */
  function TrimStart(s: string): (r: string)
    ensures |r| <= |s|
    ensures r == [] || !IsWhitespace(r[0])
  {
    if s != [] && IsWhitespace(s[0]) then TrimStart(s[1..]) else s
  }

  /** `str::trim_end`: drops the trailing whitespace. */
  function TrimEnd(s: string): (r: string)
    ensures |r| <= |s|
    ensures r != [] ==> r[0] == s[0]
    ensures r == [] || !IsWhitespace(r[|r| - 1])
  {
    if s != [] && IsWhitespace(s[|s| - 1]) then TrimEnd(s[..|s| - 1]) else s
  }

  /** `trim_start` keeps a suffix of `s` and drops only whitespace. */
  lemma {:induction false} TrimStartDrops(s: string)
    ensures TrimStart(s) == s[|s| - |TrimStart(s)|..]
    ensures AllWhitespace(s[..|s| - |TrimStart(s)|])
    decreases |s|
  {
    if s != [] && IsWhitespace(s[0]) {
      TrimStartDrops(s[1..]);
      var n := |s| - |TrimStart(s)|;
      assert s[..n] == [s[0]] + s[1..][..n - 1];
    }
  }

  /** `trim_end` keeps a prefix of `s` and drops only whitespace. */
  lemma {:induction false} TrimEndDrops(s: string)
    ensures TrimEnd(s) == s[..|TrimEnd(s)|]
    ensures AllWhitespace(s[|TrimEnd(s)|..])
    decreases |s|
  {
    if s != [] && IsWhitespace(s[|s| - 1]) {
      var p := s[..|s| - 1];
      TrimEndDrops(p);
      var n := |TrimEnd(s)|;
      assert s[n..] == p[n..] + [s[|s| - 1]];
    }
  }

  /** `str::trim`: `s` with whitespace dropped from both ends. */
  function Trim(s: string): (r: string)
    ensures IsTrimmed(r)
  {
    TrimEnd(TrimStart(s))
  }

  /** What `trim` keeps is an infix of `s` with only whitespace on either side. */
  lemma TrimInfix(s: string)
    ensures exists a {:trigger s[..a]} :: 0 <= a <= |s| - |Trim(s)| && Trim(s) == s[a..a + |Trim(s)|]
              && AllWhitespace(s[..a]) && AllWhitespace(s[a + |Trim(s)|..])
  {
    var t := TrimStart(s);
    var r := TrimEnd(t);
    var a := |s| - |t|;
    assert s[a..] == t && AllWhitespace(s[..a]) by { TrimStartDrops(s); }
    assert r == t[..|r|] && AllWhitespace(t[|r|..]) by { TrimEndDrops(t); }
    assert Trim(s) == r;
    SliceOfSuffix(s, a, t, |r|);
    InfixWitness(s, r, a);
  }

  /** Slices of a suffix `t == s[a..]` are slices of `s` shifted by `a`. */
  lemma SliceOfSuffix<T>(s: seq<T>, a: nat, t: seq<T>, n: nat)
    requires a <= |s| && s[a..] == t && n <= |t|
    ensures s[a..a + n] == t[..n] && s[a + n..] == t[n..]
  {
  }

  /** An infix of `s` with whitespace on both sides, at a known offset, witnesses the trim shape. */
  lemma InfixWitness(s: string, r: string, a: nat)
    requires a <= |s| - |r| && r == s[a..a + |r|] && AllWhitespace(s[..a]) && AllWhitespace(s[a + |r|..])
    ensures exists a {:trigger s[..a]} :: 0 <= a <= |s| - |r| && r == s[a..a + |r|]
              && AllWhitespace(s[..a]) && AllWhitespace(s[a + |r|..])
  {
  }

  /** Trimming is the identity on a string whose ends are not whitespace. */
  lemma {:induction false} TrimOfTrimmed(s: string)
    requires IsTrimmed(s)
    ensures Trim(s) == s
  {
  }

  /** Whitespace padding around a trimmed string is exactly what `trim` removes. */
  lemma {:induction false} TrimOfPadded(p: string, s: string, q: string)
    requires AllWhitespace(p) && AllWhitespace(q) && IsTrimmed(s) && s != []
    ensures Trim(p + s + q) == s
  {
    TrimStartOfPadded(p, s + q);
    assert p + s + q == p + (s + q);
    TrimEndOfPadded(s, q);
  }

  lemma {:induction false} TrimStartOfPadded(p: string, s: string)
    requires AllWhitespace(p) && s != [] && !IsWhitespace(s[0])
    ensures TrimStart(p + s) == s
    decreases |p|
  {
    if p != [] {
      assert (p + s)[1..] == p[1..] + s;
      TrimStartOfPadded(p[1..], s);
    }
  }

  lemma {:induction false} TrimEndOfPadded(s: string, q: string)
    requires AllWhitespace(q) && s != [] && !IsWhitespace(s[|s| - 1])
    ensures TrimEnd(s + q) == s
    decreases |q|
  {
    if q != [] {
      assert (s + q)[..|s + q| - 1] == s + q[..|q| - 1];
      TrimEndOfPadded(s, q[..|q| - 1]);
    } else {
      assert s + q == s;
    }
  }

  /** Concatenation regroups freely. */
  lemma Associative<T>(a: seq<T>, b: seq<T>, c: seq<T>)
    ensures a + b + c == a + (b + c)
  {
  }

  /** `pat` occurs in `s` starting at index `i`. */
  predicate OccursAt(s: string, pat: string, i: int) {
    0 <= i && i + |pat| <= |s| && s[i..i + |pat|] == pat
  }

  /** The `n`-th character of an occurrence of `pat` at `k` is `pat[n]`. */
  lemma OccursAtChar(s: string, pat: string, k: int, n: nat)
    requires n < |pat|
    ensures OccursAt(s, pat, k) ==> s[k + n] == pat[n]
  {
    if OccursAt(s, pat, k) {
      assert s[k..k + |pat|][n] == s[k + n];
    }
  }

  /** `str::find` from index `i` on: the leftmost occurrence of `pat` at or after `i`. */
  function FindFrom(s: string, pat: string, i: nat): (r: Option<nat>)
    requires |pat| > 0
    ensures r.Some? ==> i <= r.value && OccursAt(s, pat, r.value)
    ensures forall k :: i <= k && (r.None? || k < r.value) ==> !OccursAt(s, pat, k)
    decreases |s| - i
  {
    if i + |pat| > |s| then None
    else if s[i..i + |pat|] == pat then Some(i)
    else FindFrom(s, pat, i + 1)
  }

  /** Glues `parts` back together with `sep` between neighbours. */
  function Join(parts: seq<string>, sep: string): string
    requires |parts| > 0
  {
    if |parts| == 1 then parts[0] else parts[0] + sep + Join(parts[1..], sep)
  }

  /**
   * `str::split(sep)`: cuts `s` at the leftmost occurrence of `sep`, then
   * again in what follows it, so occurrences never overlap.
   */
  function Split(s: string, sep: string): (parts: seq<string>)
    requires |sep| > 0
    ensures |parts| >= 1
    ensures Join(parts, sep) == s
    ensures |parts| == 1 <==> forall k :: !OccursAt(s, sep, k)
    ensures |parts| > 1 ==> OccursAt(s, sep, |parts[0]|)
    ensures forall k :: 0 <= k < |parts[0]| ==> !OccursAt(s, sep, k)
    ensures forall i, k :: 0 <= i < |parts| ==> !OccursAt(parts[i], sep, k)
    decreases |s|
  {
    match FindFrom(s, sep, 0)
    case None => [s]
    case Some(j) =>
      var rest := Split(s[j + |sep|..], sep);
      var parts := [s[..j]] + rest;
      assert parts[0] == s[..j] && parts[1..] == rest;
      assert Join(parts, sep) == s[..j] + sep + s[j + |sep|..];
      CutAt(s, j, j + |sep|);
      PrefixFree(s, sep, j);
      assert forall i :: 0 < i < |parts| ==> parts[i] == rest[i - 1];
      parts
  }

  /** A prefix of `s` before which `sep` never occurs holds no `sep` itself. */
  lemma PrefixFree(s: string, sep: string, j: nat)
    requires |sep| > 0 && j <= |s|
    requires forall k :: 0 <= k < j ==> !OccursAt(s, sep, k)
    ensures forall k :: !OccursAt(s[..j], sep, k)
  {
    forall k ensures !OccursAt(s[..j], sep, k) {
      assert OccursAt(s[..j], sep, k) ==> s[..j][k..k + |sep|] == s[k..k + |sep|];
      assert OccursAt(s[..j], sep, k) ==> 0 <= k < j && OccursAt(s, sep, k);
    }
  }

  /** A string is the concatenation of its three slices at `i` and `k`. */
  lemma CutAt(s: string, i: nat, k: nat)
    requires i <= k <= |s|
    ensures s == s[..i] + s[i..k] + s[k..]
  {
    assert s[..k] == s[..i] + s[i..k];
    assert s == s[..k] + s[k..];
  }

  /** A string that holds no `sep` anywhere is a single part. */
  lemma {:induction false} SplitWithoutSeparator(s: string, sep: string)
    requires |sep| > 0
    requires forall k :: !OccursAt(s, sep, k)
    ensures Split(s, sep) == [s]
  {
  }

  /** The prefix `a` of `a + sep + b` is the first part when `sep` first occurs right after it. */
  lemma {:induction false} SplitAtFirst(a: string, sep: string, b: string)
    requires |sep| > 0
    requires forall k :: 0 <= k < |a| ==> !OccursAt(a + sep + b, sep, k)
    ensures Split(a + sep + b, sep) == [a] + Split(b, sep)
  {
    var s := a + sep + b;
    assert OccursAt(s, sep, |a|);
    var f := FindFrom(s, sep, 0);
    assert f == Some(|a|);
    assert s[|a| + |sep|..] == b;
  }

  /** A separator whose second character is absent from `s` never occurs in it. */
  lemma {:induction false} NoOccurrence(s: string, sep: string)
    requires |sep| >= 2 && sep[1] !in s
    ensures forall k :: !OccursAt(s, sep, k)
  {
    forall k ensures !OccursAt(s, sep, k) {
      OccursAtChar(s, sep, k, 1);
    }
  }

  /**
   * `a + sep + b` splits into exactly `a` and `b` when the separator's second
   * character (which differs from its first) appears in neither part.
   */
  lemma {:induction false} SplitInTwo(a: string, sep: string, b: string)
    requires |sep| >= 2 && sep[0] != sep[1] && sep[1] !in a && sep[1] !in b
    ensures Split(a + sep + b, sep) == [a, b]
  {
    var s := a + sep + b;
    forall k | 0 <= k < |a| ensures !OccursAt(s, sep, k) {
      OccursAtChar(s, sep, k, 1);
      assert k + 1 < |a| ==> s[k + 1] == a[k + 1];
      assert k + 1 == |a| ==> s[k + 1] == sep[0];
    }
    SplitAtFirst(a, sep, b);
    NoOccurrence(b, sep);
    SplitWithoutSeparator(b, sep);
  }

  /** `str::replace(c, "")`: `s` with every `c` removed, order kept. */
  function RemoveAll(s: string, c: char): (r: string)
    ensures c !in r
    ensures |r| <= |s|
    ensures forall x :: x in r ==> x in s
    ensures c !in s ==> r == s
  {
    if s == [] then []
    else (if s[0] == c then [] else [s[0]]) + RemoveAll(s[1..], c)
  }

  /** Removal works piecewise: the text before and after a cut are cleared independently. */
  lemma {:induction false} RemoveAllAppend(a: string, b: string, c: char)
    ensures RemoveAll(a + b, c) == RemoveAll(a, c) + RemoveAll(b, c)
    decreases |a|
  {
    if a == [] {
      assert a + b == b;
    } else {
      assert (a + b)[0] == a[0] && (a + b)[1..] == a[1..] + b;
      RemoveAllAppend(a[1..], b, c);
      Associative(if a[0] == c then [] else [a[0]], RemoveAll(a[1..], c), RemoveAll(b, c));
    }
  }

  /** One character: `c` itself is removed and every other character is kept. */
  lemma RemoveAllOne(x: char, c: char)
    ensures RemoveAll([x], c) == if x == c then [] else [x]
  {
    assert [x][1..] == [];
  }
}
