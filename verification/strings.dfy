/** The handful of Python `str` operations the site builder relies on,
    stated over `string` (a sequence of code points). */
module Strings {
  import opened Wrappers

  // ---------------------------------------------------------------------------
  // Prefixes, suffixes and occurrences
  // ---------------------------------------------------------------------------

  /** `s.startswith(p)` */
  predicate StartsWith(s: string, p: string) {
    |p| <= |s| && s[..|p|] == p
  }

  /** `s.endswith(p)` */
  predicate EndsWith(s: string, p: string) {
    |p| <= |s| && s[|s| - |p|..] == p
  }

  /** A concatenation starts with its left part and ends with its right part. */
  lemma ConcatEnds(a: string, b: string)
    ensures StartsWith(a + b, a) && EndsWith(a + b, b)
  {
    assert (a + b)[..|a|] == a;
    assert (a + b)[|a|..] == b;
  }

  /** Each part of a three-part concatenation sits at the sum of the lengths before it. */
  lemma ConcatThree(a: string, b: string, c: string)
    ensures StartsWith(a + b + c, a) && EndsWith(a + b + c, c)
    ensures OccursAt(a + b + c, b, |a|)
  {
    assert (a + b + c)[..|a|] == a;
    assert (a + b + c)[|a|..|a| + |b|] == b;
    assert (a + b + c)[|a + b|..] == c;
  }

  /** Each part of a four-part concatenation sits at the sum of the lengths before it. */
  lemma ConcatParts(a: string, b: string, c: string, d: string)
    ensures StartsWith(a + b + c + d, a + b + c) && EndsWith(a + b + c + d, d)
    ensures OccursAt(a + b + c + d, b, |a|)
  {
    assert (a + b + c + d)[..|a + b + c|] == a + b + c;
    assert (a + b + c + d)[|a|..|a| + |b|] == b;
    assert (a + b + c + d)[|a + b + c|..] == d;
  }

  /** A proof step only: regrouping a concatenation leaves it unchanged. */
  lemma Regroup(a: string, b: string, c: string, d: string, e: string)
    ensures a + b + (c + d) + e == a + (b + c + d) + e
  {
  }

  /** An occurrence in a prefix stays an occurrence once text is appended. */
  lemma OccursInPrefix(a: string, b: string, sub: string, i: int)
    requires OccursAt(a, sub, i)
    ensures OccursAt(a + b, sub, i)
  {
    assert (a + b)[i..i + |sub|] == a[i..i + |sub|];
  }

  /** An occurrence in a suffix is an occurrence in the whole text. */
  lemma OccursInSuffix(text: string, tail: string, sub: string, i: int)
    requires EndsWith(text, tail) && OccursAt(tail, sub, i)
    ensures OccursAt(text, sub, |text| - |tail| + i)
  {
    var d := |text| - |tail|;
    assert text[d + i..d + i + |sub|] == tail[i..i + |sub|];
  }

  /** `f(xs[0], 0) + f(xs[1], 1) + ...`: one piece per element, in order. */
  function Joined<T>(xs: seq<T>, f: (T, nat) -> string): string {
    if |xs| == 0 then "" else Joined(xs[..|xs| - 1], f) + f(xs[|xs| - 1], |xs| - 1)
  }

  lemma JoinedSnoc<T>(xs: seq<T>, x: T, f: (T, nat) -> string)
    ensures Joined(xs + [x], f) == Joined(xs, f) + f(x, |xs|)
  {
    assert (xs + [x])[..|xs|] == xs;
  }

  lemma JoinedNext<T>(xs: seq<T>, n: nat, f: (T, nat) -> string)
    requires n < |xs|
    ensures Joined(xs[..n + 1], f) == Joined(xs[..n], f) + f(xs[n], n)
  {
    JoinedSnoc(xs[..n], xs[n], f);
    assert xs[..n] + [xs[n]] == xs[..n + 1];
  }

  /** A proof step only: two pieces regrouped around a middle one. */
  lemma Regroup3(a: string, b: string, c: string, d: string)
    ensures a + (b + c) + d == a + b + c + d
  {
  }

  /** Element `k`'s piece sits right after the pieces of the elements before it. */
  lemma {:induction false} JoinedPlaces<T>(xs: seq<T>, f: (T, nat) -> string, k: nat)
    requires k < |xs|
    ensures OccursAt(Joined(xs, f), f(xs[k], k), |Joined(xs[..k], f)|)
  {
    var init, last := xs[..|xs| - 1], xs[|xs| - 1];
    var a, b := Joined(init, f), f(last, |xs| - 1);
    assert Joined(xs, f) == a + b;
    if k == |xs| - 1 {
      assert (a + b)[|a|..|a| + |b|] == b;
    } else {
      JoinedPlaces(init, f, k);
      assert init[..k] == xs[..k] && init[k] == xs[k];
      OccursInPrefix(a, b, f(xs[k], k), |Joined(xs[..k], f)|);
    }
  }

  /** `sub` occurs in `s` starting at index `i`. */
  predicate OccursAt(s: string, sub: string, i: int) {
    0 <= i && i + |sub| <= |s| && s[i..i + |sub|] == sub
  }

  /** An occurrence of `sub` puts its first character in `s`. */
  lemma OccursHead(s: string, sub: string, j: int)
    requires OccursAt(s, sub, j) && |sub| > 0
    ensures sub[0] in s
  {
    assert s[j] == s[j..j + |sub|][0];
  }

  /** `s.find(sub, from)` with "not found" as `None`: the least index at or
      after `from` where `sub` occurs. */
  function FindFrom(s: string, sub: string, from: nat): (r: Option<nat>)
    requires from <= |s|
    ensures r.Some? ==> from <= r.value && OccursAt(s, sub, r.value)
    ensures r.Some? ==> forall j :: from <= j < r.value ==> !OccursAt(s, sub, j)
    ensures r.None? ==> forall j :: from <= j ==> !OccursAt(s, sub, j)
    decreases |s| - from
  {
    if OccursAt(s, sub, from) then Some(from)
    else if from == |s| then None
    else FindFrom(s, sub, from + 1)
  }

  /** The first occurrence is the one with no occurrence before it. */
  lemma FindLeast(s: string, sub: string, k: nat)
    requires OccursAt(s, sub, k)
    requires forall j :: 0 <= j < k ==> !OccursAt(s, sub, j)
    ensures FindFrom(s, sub, 0) == Some(k)
  {
  }

  /** `sub in s` */
  predicate Contains(s: string, sub: string) {
    FindFrom(s, sub, 0).Some?
  }

  lemma ContainsIff(s: string, sub: string)
    ensures Contains(s, sub) <==> exists i :: OccursAt(s, sub, i)
  {
  }

  // ---------------------------------------------------------------------------
  // Splitting and joining
  // ---------------------------------------------------------------------------

  /** `sep.join(parts)` for a string separator. */
  function JoinStr(parts: seq<string>, sep: string): string
    requires |parts| >= 1
  {
    if |parts| == 1 then parts[0] else parts[0] + sep + JoinStr(parts[1..], sep)
  }

  /** `s.split(sep, maxsplit)` for a non-empty separator: at most `maxsplit`
      cuts, each at the leftmost occurrence of `sep` in what is left. */
  function SplitN(s: string, sep: string, maxsplit: nat): (parts: seq<string>)
    requires |sep| > 0
    ensures 1 <= |parts| <= maxsplit + 1
    ensures JoinStr(parts, sep) == s
    ensures forall k :: 0 <= k < |parts| - 1 ==> !Contains(parts[k], sep)
    decreases maxsplit
  {
    if maxsplit == 0 then [s]
    else
      match FindFrom(s, sep, 0)
      case None => [s]
      case Some(i) =>
        var rest := SplitN(s[i + |sep|..], sep, maxsplit - 1);
        var parts := [s[..i]] + rest;
        assert parts[1..] == rest;
        assert s[i..i + |sep|] == sep;
        assert s == s[..i] + sep + s[i + |sep|..];
        NoEarlierOccurrence(s, sep, i);
        parts
  }

  /** A prefix ending before the first occurrence of `sub` does not contain it. */
  lemma NoEarlierOccurrence(s: string, sub: string, i: nat)
    requires |sub| > 0
    requires FindFrom(s, sub, 0) == Some(i)
    ensures !Contains(s[..i], sub)
  {
    if Contains(s[..i], sub) {
      var j := FindFrom(s[..i], sub, 0).value;
      assert s[..i][j..j + |sub|] == s[j..j + |sub|];
      assert OccursAt(s, sub, j) && j < i;
      assert false;
    }
  }

  /** Where the pieces of `d + meta + d + body` sit. */
  lemma BlockPieces(d: string, meta: string, body: string)
    ensures StartsWith(d + meta + d + body, d)
    ensures (d + meta + d + body)[|d|..] == meta + d + body
    ensures (d + meta + d + body)[|d| + |meta| + |d|..] == body
  {
    var text := d + meta + d + body;
    assert text[..|d|] == d;
  }

  /** The first `---` in `meta + "---" + body` is the one after `meta`. */
  lemma FirstDelimiterAfter(meta: string, body: string)
    requires !Contains(meta + "--", "---")
    ensures FindFrom(meta + "---" + body, "---", 0) == Some(|meta|)
  {
    var s := meta + "---" + body;
    var t := meta + "--";
    assert OccursAt(s, "---", |meta|);
    forall j | 0 <= j < |meta| ensures !OccursAt(s, "---", j) {
      if OccursAt(s, "---", j) {
        assert s[j..j + 3] == t[j..j + 3];
        assert OccursAt(t, "---", j);
        ContainsIff(t, "---");
      }
    }
    FindLeast(s, "---", |meta|);
  }

  /** Text without a dash, followed by two dashes, still holds no `---`. */
  lemma DashFreeBlock(meta: string)
    requires '-' !in meta
    ensures !Contains(meta + "--", "---")
  {
    var t := meta + "--";
    forall j | 0 <= j < |meta| ensures !OccursAt(t, "---", j) {
      assert t[j] == meta[j];
    }
    ContainsIff(t, "---");
  }

  /** How `split('---', 2)` cuts `---meta---body` when the block holds no
      `---` of its own. */
  lemma SplitBlock(meta: string, body: string)
    requires !Contains(meta + "--", "---")
    ensures SplitN("---" + meta + "---" + body, "---", 2) == ["", meta, body]
  {
    var d := "---";
    var text := d + meta + d + body;
    var rest := meta + d + body;
    BlockPieces(d, meta, body);
    assert OccursAt(text, d, 0);
    assert FindFrom(text, d, 0) == Some(0);
    assert SplitN(text, d, 2) == [text[..0]] + SplitN(rest, d, 1);
    FirstDelimiterAfter(meta, body);
    assert rest[|meta| + 3..] == body && rest[..|meta|] == meta;
    assert SplitN(rest, d, 1) == [meta] + SplitN(body, d, 0);
  }

  /** `s.split(c)` for a one-character separator, without a limit. */
  function Split(s: string, c: char): (parts: seq<string>)
    ensures |parts| >= 1
    ensures forall k :: 0 <= k < |parts| ==> c !in parts[k]
  {
    if |s| == 0 then [""]
    else
      var rest := Split(s[1..], c);
      if s[0] == c then [""] + rest
      else [[s[0]] + rest[0]] + rest[1..]
  }

  /** `c.join(parts)` for a one-character separator. */
  function Join(parts: seq<string>, c: char): string
    requires |parts| >= 1
  {
    if |parts| == 1 then parts[0] else parts[0] + [c] + Join(parts[1..], c)
  }

  /** Splitting and re-joining on the same character gives back the string. */
  lemma {:induction false} JoinSplit(s: string, c: char)
    ensures Join(Split(s, c), c) == s
  {
    if |s| > 0 {
      var rest := Split(s[1..], c);
      JoinSplit(s[1..], c);
      if s[0] == c {
        assert ([""] + rest)[1..] == rest;
        assert s == [c] + s[1..];
      } else {
        var parts := [[s[0]] + rest[0]] + rest[1..];
        if |rest| == 1 {
          assert s == [s[0]] + s[1..];
        } else {
          assert parts[1..] == rest[1..];
          assert Join(rest, c) == rest[0] + [c] + Join(rest[1..], c);
          assert s == [s[0]] + s[1..];
        }
      }
    }
  }

  /** Splitting a piece without the separator, followed by the separator and
      more text, cuts exactly after that piece. */
  lemma {:induction false} SplitAfterPiece(p: string, c: char, t: string)
    requires c !in p
    ensures Split(p + [c] + t, c) == [p] + Split(t, c)
    decreases |p|
  {
    if |p| == 0 {
      assert (p + [c] + t)[1..] == t;
    } else {
      var s := p + [c] + t;
      assert s[1..] == p[1..] + [c] + t;
      SplitAfterPiece(p[1..], c, t);
      assert [p[0]] + p[1..] == p;
    }
  }

  /** A piece without the separator splits into itself. */
  lemma {:induction false} SplitPiece(p: string, c: char)
    requires c !in p
    ensures Split(p, c) == [p]
    decreases |p|
  {
    if |p| > 0 {
      SplitPiece(p[1..], c);
      assert [p[0]] + p[1..] == p;
    }
  }

  /** Joining separator-free pieces and splitting again gives back the pieces. */
  lemma {:induction false} SplitJoin(parts: seq<string>, c: char)
    requires |parts| >= 1
    requires forall k :: 0 <= k < |parts| ==> c !in parts[k]
    ensures Split(Join(parts, c), c) == parts
  {
    if |parts| == 1 {
      SplitPiece(parts[0], c);
    } else {
      SplitJoin(parts[1..], c);
      SplitAfterPiece(parts[0], c, Join(parts[1..], c));
      assert [parts[0]] + parts[1..] == parts;
    }
  }

  // ---------------------------------------------------------------------------
  // Stripping
  // ---------------------------------------------------------------------------

  /** `c.isspace()`: Python's whitespace set (bidirectional class WS, B or S,
      or category Zs). */
  predicate IsSpace(c: char) {
    var n := c as int;
    (9 <= n <= 13) || (28 <= n <= 32) || n == 0x85 || n == 0xA0 || n == 0x1680
    || (0x2000 <= n <= 0x200A) || n == 0x2028 || n == 0x2029 || n == 0x202F
    || n == 0x205F || n == 0x3000
  }

  const Whitespace: set<char> := set n | 0 <= n < 0x3001 && IsSpace(n as char) :: n as char

  /** `s.lstrip(chars)`: drop the longest prefix made of characters in `cs`. */
  function LStrip(s: string, cs: set<char>): (r: string)
    ensures |r| <= |s| && r == s[|s| - |r|..]
    ensures forall k :: 0 <= k < |s| - |r| ==> s[k] in cs
    ensures |r| > 0 ==> r[0] !in cs
  {
    if |s| > 0 && s[0] in cs then LStrip(s[1..], cs) else s
  }

  /** Stripping removes a prefix made of stripped characters and stops at the
      first character that is not one. */
  lemma {:induction false} LStripPrefix(p: string, t: string, cs: set<char>)
    requires forall k :: 0 <= k < |p| ==> p[k] in cs
    requires |t| == 0 || t[0] !in cs
    ensures LStrip(p + t, cs) == t
  {
    if |p| > 0 {
      assert (p + t)[1..] == p[1..] + t;
      LStripPrefix(p[1..], t, cs);
    }
  }

  /** `s.rstrip(chars)`: drop the longest suffix made of characters in `cs`. */
  function RStrip(s: string, cs: set<char>): (r: string)
    ensures |r| <= |s| && r == s[..|r|]
    ensures forall k :: |r| <= k < |s| ==> s[k] in cs
    ensures |r| > 0 ==> r[|r| - 1] !in cs
  {
    if |s| > 0 && s[|s| - 1] in cs then RStrip(s[..|s| - 1], cs) else s
  }

  /** Where `s.strip()` starts: the length of the leading whitespace. */
  function StripStart(s: string): (n: nat)
    ensures n <= |s|
    ensures forall k :: 0 <= k < n ==> s[k] in Whitespace
  {
    |s| - |LStrip(s, Whitespace)|
  }

  /** `s.strip()`: the text between the leading and trailing whitespace. */
  function Strip(s: string): (r: string)
    ensures StripStart(s) + |r| <= |s|
    ensures r == s[StripStart(s)..StripStart(s) + |r|]
    ensures forall k :: StripStart(s) + |r| <= k < |s| ==> s[k] in Whitespace
    ensures |r| > 0 ==> r[0] !in Whitespace && r[|r| - 1] !in Whitespace
  {
    RStrip(LStrip(s, Whitespace), Whitespace)
  }

  lemma InWhitespace(c: char)
    ensures c in Whitespace <==> IsSpace(c)
  {
    if IsSpace(c) {
      var n := c as int;
      assert n < 0x3001 && c == n as char;
    }
  }

  /** A string that neither starts nor ends with whitespace is its own strip. */
  lemma StripUnchanged(s: string)
    requires |s| > 0 ==> !IsSpace(s[0]) && !IsSpace(s[|s| - 1])
    ensures Strip(s) == s
  {
    if |s| > 0 {
      InWhitespace(s[0]);
      InWhitespace(s[|s| - 1]);
    }
  }

  /** Stripping text after leading whitespace gives that text, when it has
      no surrounding whitespace of its own. */
  lemma StripAfterSpaces(p: string, t: string)
    requires forall k :: 0 <= k < |p| ==> IsSpace(p[k])
    requires |t| > 0 && !IsSpace(t[0]) && !IsSpace(t[|t| - 1])
    ensures Strip(p + t) == t
  {
    forall k | 0 <= k < |p| ensures p[k] in Whitespace {
      InWhitespace(p[k]);
    }
    InWhitespace(t[0]);
    LStripPrefix(p, t, Whitespace);
    StripUnchanged(t);
  }

  /** The first piece of a split is the text before the first separator. */
  lemma FirstPiece(p: string, c: char, t: string)
    requires c !in p
    ensures Split(p + [c] + t, c)[0] == p
  {
    SplitAfterPiece(p, c, t);
  }

  // ---------------------------------------------------------------------------
  // Character-wise rewriting
  // ---------------------------------------------------------------------------

  /** `s.replace(a, b)` for single characters. */
  function ReplaceChar(s: string, a: char, b: char): (r: string)
    ensures |r| == |s|
    ensures forall k :: 0 <= k < |s| ==> r[k] == (if s[k] == a then b else s[k])
  {
    if |s| == 0 then ""
    else [if s[0] == a then b else s[0]] + ReplaceChar(s[1..], a, b)
  }

  lemma ReplaceAbsent(s: string, a: char, b: char)
    requires a !in s
    ensures ReplaceChar(s, a, b) == s
  {
  }

  function LowerChar(c: char): char {
    if 'A' <= c <= 'Z' then (c as int + 32) as char else c
  }

  /** `s.lower()` on the ASCII letters. */
  function Lower(s: string): (r: string)
    ensures |r| == |s|
    ensures forall k :: 0 <= k < |s| ==> r[k] == LowerChar(s[k])
  {
    if |s| == 0 then "" else [LowerChar(s[0])] + Lower(s[1..])
  }

  /** Code-point lexicographic order, as Python compares `str` values. */
  predicate StrLe(a: string, b: string) {
    if |a| == 0 then true
    else if |b| == 0 then false
    else if a[0] != b[0] then a[0] < b[0]
    else StrLe(a[1..], b[1..])
  }

  lemma {:induction false} StrLeTotal(a: string, b: string)
    ensures StrLe(a, b) || StrLe(b, a)
  {
    if |a| > 0 && |b| > 0 && a[0] == b[0] {
      StrLeTotal(a[1..], b[1..]);
    }
  }

  lemma {:induction false} StrLeTransitive(a: string, b: string, c: string)
    requires StrLe(a, b) && StrLe(b, c)
    ensures StrLe(a, c)
  {
    if |a| > 0 && |b| > 0 && |c| > 0 && a[0] == b[0] && b[0] == c[0] {
      StrLeTransitive(a[1..], b[1..], c[1..]);
    }
  }

  lemma {:induction false} StrLeAntisymmetric(a: string, b: string)
    requires StrLe(a, b) && StrLe(b, a)
    ensures a == b
  {
    if |a| > 0 && |b| > 0 {
      StrLeAntisymmetric(a[1..], b[1..]);
      assert a == [a[0]] + a[1..];
      assert b == [b[0]] + b[1..];
    }
  }

  // ---------------------------------------------------------------------------
  // Decimal numerals
  // ---------------------------------------------------------------------------

  predicate IsDigitChar(c: char) {
    '0' <= c <= '9'
  }

  predicate AllDigits(s: string) {
    forall k :: 0 <= k < |s| ==> IsDigitChar(s[k])
  }

  /** `s.isdigit()` restricted to ASCII digits. */
  predicate IsDigitString(s: string) {
    |s| > 0 && AllDigits(s)
  }

  /** `int(s)` for a string of ASCII digits. */
  function DigitsValue(s: string): nat
    requires AllDigits(s)
  {
    if |s| == 0 then 0 else 10 * DigitsValue(s[..|s| - 1]) + (s[|s| - 1] as int - '0' as int)
  }

  function DigitChar(d: nat): (c: char)
    requires d < 10
    ensures IsDigitChar(c) && c as int - '0' as int == d
  {
    (48 + d) as char
  }

  /** `str(n)` for a natural number: decimal, no leading zero. */
  function NatToString(n: nat): (s: string)
    ensures |s| >= 1 && AllDigits(s)
    ensures s[0] == '0' ==> n == 0
  {
    if n < 10 then [DigitChar(n)] else NatToString(n / 10) + [DigitChar(n % 10)]
  }

  /** Reading back a rendered number gives the number. */
  lemma {:induction false} NatToStringRoundTrip(n: nat)
    ensures DigitsValue(NatToString(n)) == n
  {
    if n >= 10 {
      var s := NatToString(n);
      NatToStringRoundTrip(n / 10);
      assert s[..|s| - 1] == NatToString(n / 10);
    }
  }

  /** Different numbers render differently. */
  lemma NatToStringInjective(a: nat, b: nat)
    requires NatToString(a) == NatToString(b)
    ensures a == b
  {
    NatToStringRoundTrip(a);
    NatToStringRoundTrip(b);
  }

  /** `str(i)` for an integer. */
  function IntToString(i: int): (s: string)
    ensures |s| >= 1
    ensures i < 0 <==> s[0] == '-'
  {
    if i < 0 then "-" + NatToString(-i) else NatToString(i)
  }
}
