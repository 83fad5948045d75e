/** Python string semantics that the views rely on: whitespace as `str.isspace()`
    and the regex class `\s` see it, `strip()`, `split(sep)`, ASCII case folding
    (as the database's case-insensitive lookups apply it) and the code-point order
    the database uses for `order_by` on text columns. */
module Text {

  datatype Option<+T> = None | Some(value: T)

  /** The characters for which Python's `str.isspace()` holds; CPython's regex
      class `\s` on `str` patterns matches the same set. */
  predicate IsSpace(c: char) {
    ('\t' <= c <= '\r') || ('\U{1C}' <= c <= '\U{20}') || c == '\U{85}' || c == '\U{A0}'
    || c == '\U{1680}' || ('\U{2000}' <= c <= '\U{200A}') || c == '\U{2028}' || c == '\U{2029}'
    || c == '\U{202F}' || c == '\U{205F}' || c == '\U{3000}'
  }

  predicate IsDigit(c: char) { '0' <= c <= '9' }

  predicate IsAsciiLetter(c: char) { 'A' <= c <= 'Z' || 'a' <= c <= 'z' }

  predicate AllSpace(s: string) { forall k :: 0 <= k < |s| ==> IsSpace(s[k]) }

  predicate AllDigits(s: string) { forall k :: 0 <= k < |s| ==> IsDigit(s[k]) }

  /** Value of an ASCII digit. */
  function DigitValue(c: char): (v: nat)
    requires IsDigit(c)
    ensures v < 10
  {
    (c as int) - ('0' as int)
  }

  /** The ASCII digit for `n`. */
  function DigitChar(n: nat): (c: char)
    requires n < 10
    ensures IsDigit(c) && DigitValue(c) == n
  {
    (('0' as int) + n) as char
  }

  // ---------------------------------------------------------------- strip

  /** Number of leading whitespace characters. */
  function LeadingSpace(s: string): (n: nat)
    ensures n <= |s|
    ensures AllSpace(s[..n])
    ensures n < |s| ==> !IsSpace(s[n])
  {
    if |s| > 0 && IsSpace(s[0]) then
      var n := 1 + LeadingSpace(s[1..]);
      assert s[..n] == [s[0]] + s[1..][..n - 1];
      n
    else 0
  }

  /** Number of trailing whitespace characters. */
  function TrailingSpace(s: string): (n: nat)
    ensures n <= |s|
    ensures AllSpace(s[|s| - n..])
    ensures n < |s| ==> !IsSpace(s[|s| - n - 1])
  {
    if |s| > 0 && IsSpace(s[|s| - 1]) then
      var t := s[..|s| - 1];
      var m := TrailingSpace(t);
      SpaceSuffixGrows(s, m);
      m + 1
    else 0
  }

  /** A whitespace suffix of all but the last character, followed by a
      whitespace last character, is a whitespace suffix one longer. */
  lemma SpaceSuffixGrows(s: string, m: nat)
    requires |s| > 0 && m < |s| && IsSpace(s[|s| - 1])
    requires AllSpace(s[..|s| - 1][|s| - 1 - m..])
    ensures AllSpace(s[|s| - (m + 1)..])
    ensures m + 1 < |s| ==> s[|s| - (m + 1) - 1] == s[..|s| - 1][|s| - 1 - m - 1]
  {
    var t := s[..|s| - 1];
    var w := s[|s| - (m + 1)..];
    forall k | 0 <= k < m + 1 ensures IsSpace(w[k]) {
      if k < m { assert w[k] == t[|t| - m..][k]; } else { assert w[k] == s[|s| - 1]; }
    }
  }

  /** Python's `s.lstrip()`. */
  function LStrip(s: string): string { s[LeadingSpace(s)..] }

  /** Python's `s.rstrip()`. */
  function RStrip(s: string): string { s[..|s| - TrailingSpace(s)] }

  /** A string whose first and last characters (if any) are not whitespace. */
  predicate IsStripped(s: string) {
    |s| == 0 || (!IsSpace(s[0]) && !IsSpace(s[|s| - 1]))
  }

  /** Python's `s.strip()`: the result is the part of `s` between a whitespace
      prefix and a whitespace suffix, and it neither starts nor ends with whitespace. */
  function Strip(s: string): (r: string)
    ensures IsStripped(r)
    ensures exists i, j :: 0 <= i <= j <= |s| && r == s[i..j] && AllSpace(s[..i]) && AllSpace(s[j..])
  {
    var i := LeadingSpace(s);
    var t := s[i..];
    var n := TrailingSpace(t);
    var j := |s| - n;
    StripEnds(s, i, n);
    s[i..j]
  }

  /** The ends found by `Strip`: from a whitespace prefix followed by a
      non-space, and a whitespace suffix of the rest preceded by a non-space,
      follow whitespace after the cut and a middle that neither starts nor ends
      with whitespace. */
  lemma StripEnds(s: string, i: nat, n: nat)
    requires i <= |s| && n <= |s| - i
    requires AllSpace(s[..i]) && (i < |s| ==> !IsSpace(s[i]))
    requires AllSpace(s[i..][|s| - i - n..]) && (n < |s| - i ==> !IsSpace(s[i..][|s| - i - n - 1]))
    ensures AllSpace(s[|s| - n..]) && IsStripped(s[i..|s| - n])
  {
    var t := s[i..];
    var j := |s| - n;
    var r := s[i..j];
    assert t[|t| - n..] == s[j..];
    if i < j {
      assert r[0] == s[i];
      assert r[|r| - 1] == t[|t| - n - 1];
    }
  }

  /** `LeadingSpace` is determined by its two defining facts. */
  lemma {:induction false} LeadingSpaceIs(s: string, n: nat)
    requires n <= |s| && AllSpace(s[..n]) && (n < |s| ==> !IsSpace(s[n]))
    ensures LeadingSpace(s) == n
  {
    if n > 0 {
      assert s[..n][0] == s[0];
      assert s[1..][..n - 1] == s[1..n];
      assert forall k :: 0 <= k < n - 1 ==> s[1..n][k] == s[..n][k + 1];
      if n < |s| { assert s[1..][n - 1] == s[n]; }
      LeadingSpaceIs(s[1..], n - 1);
    }
  }

  /** `TrailingSpace` is determined by its two defining facts. */
  lemma {:induction false} TrailingSpaceIs(s: string, n: nat)
    requires n <= |s| && AllSpace(s[|s| - n..]) && (n < |s| ==> !IsSpace(s[|s| - n - 1]))
    ensures TrailingSpace(s) == n
  {
    if n > 0 {
      var t := s[..|s| - 1];
      var w := s[|s| - n..];
      assert IsSpace(s[|s| - 1]) by { assert w[n - 1] == s[|s| - 1]; }
      var u := t[|t| - (n - 1)..];
      assert AllSpace(u) by {
        forall k | 0 <= k < |u| ensures IsSpace(u[k]) { assert u[k] == w[k]; }
      }
      if n < |s| { assert t[|t| - (n - 1) - 1] == s[|s| - n - 1]; }
      TrailingSpaceIs(t, n - 1);
    }
  }

  /** Whitespace in front of a text that does not start with whitespace is
      exactly its leading whitespace. */
  lemma LeadingPad(pre: string, u: string)
    requires AllSpace(pre) && u != [] && !IsSpace(u[0])
    ensures LeadingSpace(pre + u) == |pre|
  {
    var s := pre + u;
    assert s[..|pre|] == pre && s[|pre|] == u[0];
    LeadingSpaceIs(s, |pre|);
  }

  /** Whitespace after a text that does not end with whitespace is exactly its
      trailing whitespace. */
  lemma TrailingPad(t: string, post: string)
    requires AllSpace(post) && t != [] && !IsSpace(t[|t| - 1])
    ensures TrailingSpace(t + post) == |post|
  {
    var u := t + post;
    assert u[|u| - |post|..] == post && u[|u| - |post| - 1] == t[|t| - 1];
    TrailingSpaceIs(u, |post|);
  }

  /** A text that neither starts nor ends with whitespace, padded with
      whitespace on both sides, strips back to itself. */
  lemma StripPadded(pre: string, t: string, post: string)
    requires AllSpace(pre) && AllSpace(post) && IsStripped(t)
    ensures Strip(pre + t + post) == t
  {
    var s := pre + t + post;
    if t == [] {
      assert s[..|s|] == pre + post;
      LeadingSpaceIs(s, |s|);
    } else {
      var u := t + post;
      assert s == pre + u;
      LeadingPad(pre, u);
      TrailingPad(t, post);
      assert s[|pre|..] == u;
      assert s[|pre|..|s| - |post|] == t;
    }
  }

  /** Stripping is idempotent. */
  lemma StripIdempotent(s: string)
    ensures Strip(Strip(s)) == Strip(s)
  {
    var r := Strip(s);
    var e: string := [];
    assert e + r + e == r;
    StripPadded(e, r, e);
  }

  // ---------------------------------------------------------------- split

  /** Python's `s.split(sep)` for a one-character separator: the pieces between
      separators, always at least one. */
  function Split(s: string, sep: char): (parts: seq<string>)
    ensures |parts| >= 1
  {
    if s == [] then [[]]
    else
      var rest := Split(s[1..], sep);
      if s[0] == sep then [[]] + rest else [[s[0]] + rest[0]] + rest[1..]
  }

  /** A text with no separator is one piece. */
  lemma {:induction false} SplitNoSep(a: string, sep: char)
    requires sep !in a
    ensures Split(a, sep) == [a]
  {
    if a != [] {
      SplitNoSep(a[1..], sep);
      assert [a[0]] + a[1..] == a;
    }
  }

  /** A separator-free prefix followed by the separator is the first piece. */
  lemma {:induction false} SplitAfter(a: string, sep: char, rest: string)
    requires sep !in a
    ensures Split(a + [sep] + rest, sep) == [a] + Split(rest, sep)
  {
    if a == [] {
      assert a + [sep] + rest == [sep] + rest;
      assert ([sep] + rest)[1..] == rest;
    } else {
      var s := a + [sep] + rest;
      assert s[1..] == a[1..] + [sep] + rest;
      SplitAfter(a[1..], sep, rest);
      assert [a[0]] + a[1..] == a;
    }
  }

  /** Splitting `a + sep + b` with no other separator yields exactly `[a, b]`. */
  lemma SplitTwo(a: string, sep: char, b: string)
    requires sep !in a && sep !in b
    ensures Split(a + [sep] + b, sep) == [a, b]
  {
    SplitAfter(a, sep, b);
    SplitNoSep(b, sep);
  }

  /** The pieces joined back with the separator. */
  function Join(parts: seq<string>, sep: char): string
    requires |parts| >= 1
  {
    if |parts| == 1 then parts[0] else parts[0] + [sep] + Join(parts[1..], sep)
  }

  /** An empty first piece contributes only its separator. */
  lemma JoinEmptyHead(parts: seq<string>, sep: char)
    requires |parts| >= 1
    ensures Join([[]] + parts, sep) == [sep] + Join(parts, sep)
  {
    var ps := [[]] + parts;
    assert ps[1..] == parts;
  }

  /** Prefixing the first piece prefixes the joined text. */
  lemma JoinPrefixHead(x: string, parts: seq<string>, sep: char)
    requires |parts| >= 1
    ensures Join([x + parts[0]] + parts[1..], sep) == x + Join(parts, sep)
  {
    var ps := [x + parts[0]] + parts[1..];
    if |parts| > 1 {
      assert ps[1..] == parts[1..];
      var tail := Join(parts[1..], sep);
      assert (x + parts[0]) + [sep] + tail == x + (parts[0] + [sep] + tail);
    }
  }

  /** Splitting loses nothing: the pieces join back to the text. */
  lemma {:induction false} SplitJoin(s: string, sep: char)
    ensures Join(Split(s, sep), sep) == s
  {
    if s != [] {
      var rest := Split(s[1..], sep);
      SplitJoin(s[1..], sep);
      assert [s[0]] + s[1..] == s;
      if s[0] == sep {
        JoinEmptyHead(rest, sep);
      } else {
        JoinPrefixHead([s[0]], rest, sep);
      }
    }
  }

  /** No piece holds the separator. */
  lemma {:induction false} SplitPartsFree(s: string, sep: char)
    ensures forall k :: 0 <= k < |Split(s, sep)| ==> sep !in Split(s, sep)[k]
  {
    if s != [] {
      var rest := Split(s[1..], sep);
      SplitPartsFree(s[1..], sep);
      var parts := Split(s, sep);
      forall k | 0 <= k < |parts| ensures sep !in parts[k] {
        if s[0] == sep {
          if k > 0 { assert parts[k] == rest[k - 1]; }
        } else if k > 0 {
          assert parts[k] == rest[k];
        }
      }
    }
  }

  /** A text that splits into two pieces is the first, the separator, the second. */
  lemma SplitTwoParts(s: string, sep: char)
    requires |Split(s, sep)| == 2
    ensures s == Split(s, sep)[0] + [sep] + Split(s, sep)[1]
    ensures sep !in Split(s, sep)[0] && sep !in Split(s, sep)[1]
  {
    var parts := Split(s, sep);
    SplitJoin(s, sep);
    SplitPartsFree(s, sep);
    assert parts[1..] == [parts[1]];
  }

  // ---------------------------------------------------------------- case and search

  /** ASCII lower-casing of one character. */
  function LowerChar(c: char): char {
    if 'A' <= c <= 'Z' then ((c as int) + 32) as char else c
  }

  function Lower(s: string): (r: string)
    ensures |r| == |s|
    ensures forall k :: 0 <= k < |s| ==> r[k] == LowerChar(s[k])
  {
    seq(|s|, k requires 0 <= k < |s| => LowerChar(s[k]))
  }

  /** Case-insensitive equality (a `__iexact` lookup). */
  predicate EqualsIgnoreCase(a: string, b: string) { Lower(a) == Lower(b) }

  predicate IsPrefix(p: string, s: string) { |p| <= |s| && s[..|p|] == p }

  /** `q` occurs in `s` (SQL `LIKE '%q%'`). */
  predicate Contains(s: string, q: string)
    decreases |s|
  {
    IsPrefix(q, s) || (|s| > 0 && Contains(s[1..], q))
  }

  /** Case-insensitive containment (a `__icontains` lookup). */
  predicate ContainsIgnoreCase(s: string, q: string) { Contains(Lower(s), Lower(q)) }

  /** `q` occurs in `s` starting at index `i`. */
  predicate OccursAt(s: string, q: string, i: int) {
    0 <= i && i + |q| <= |s| && s[i..i + |q|] == q
  }

  /** `Contains` means there is a position where `q` occurs. */
  lemma {:induction false} ContainsAt(s: string, q: string)
    ensures Contains(s, q) <==> exists i :: OccursAt(s, q, i)
    decreases |s|
  {
    if exists i :: OccursAt(s, q, i) {
      var i :| OccursAt(s, q, i);
      if i > 0 {
        assert OccursAt(s[1..], q, i - 1) by { assert s[1..][i - 1..i - 1 + |q|] == s[i..i + |q|]; }
        ContainsAt(s[1..], q);
      }
    }
    if Contains(s, q) && !IsPrefix(q, s) {
      ContainsAt(s[1..], q);
      var i :| OccursAt(s[1..], q, i);
      assert OccursAt(s, q, i + 1) by { assert s[1..][i..i + |q|] == s[i + 1..i + 1 + |q|]; }
    }
    if Contains(s, q) && IsPrefix(q, s) {
      assert OccursAt(s, q, 0);
    }
  }

  // ---------------------------------------------------------------- order

  /** Code-point lexicographic order: how a database with a binary collation
      orders a text column. */
  predicate StrLe(a: string, b: string)
    decreases |a|
  {
    if a == [] then true
    else if b == [] then false
    else if a[0] != b[0] then a[0] < b[0]
    else StrLe(a[1..], b[1..])
  }

  lemma {:induction false} StrLeTotal(a: string, b: string)
    ensures StrLe(a, b) || StrLe(b, a)
    decreases |a|
  {
    if a != [] && b != [] && a[0] == b[0] { StrLeTotal(a[1..], b[1..]); }
  }

  lemma {:induction false} StrLeTrans(a: string, b: string, c: string)
    requires StrLe(a, b) && StrLe(b, c)
    ensures StrLe(a, c)
    decreases |a|
  {
    if a != [] && b != [] && c != [] && a[0] == b[0] && b[0] == c[0] {
      StrLeTrans(a[1..], b[1..], c[1..]);
    }
  }

  lemma {:induction false} StrLeAntisym(a: string, b: string)
    requires StrLe(a, b) && StrLe(b, a)
    ensures a == b
    decreases |a|
  {
    if a != [] && b != [] {
      StrLeAntisym(a[1..], b[1..]);
      assert a == [a[0]] + a[1..] && b == [b[0]] + b[1..];
    }
  }
}
