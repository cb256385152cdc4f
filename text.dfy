/**
 * The operations on Python `str` values that the ownership-resolution code
 * relies on: the `in` test, `find`, `replace(old, new, 1)`, quote doubling,
 * `strip()`, `' '.join` and `split(' ')`, `str(int)` and `encode('utf-8')`.
 */
module Text {
  import opened Wrappers

  type byte = x: int | 0 <= x < 256

  // ---------------------------------------------------------------------
  // Substring search

  /** `pat` occurs in `text` at offset `i`. */
  predicate OccursAt(text: string, pat: string, i: nat) {
    i + |pat| <= |text| && text[i..i + |pat|] == pat
  }

  /** Python's `pat in text`; the empty string is in every string. */
  predicate Contains(text: string, pat: string) {
    exists i: nat :: i <= |text| && OccursAt(text, pat, i)
  }

  /** `i` is the leftmost offset at which `pat` occurs in `text`. */
  predicate FirstOccurrence(text: string, pat: string, i: nat) {
    OccursAt(text, pat, i) && forall j: nat :: j < i ==> !OccursAt(text, pat, j)
  }

  /** The leftmost occurrence of `pat` at or after offset `from`. */
  function FindFrom(text: string, pat: string, from: nat): (r: Option<nat>)
    requires from <= |text|
    ensures r.Some? ==> from <= r.value <= |text| && OccursAt(text, pat, r.value)
    ensures forall j: nat :: from <= j && (r.None? || j < r.value) ==> !OccursAt(text, pat, j)
    decreases |text| - from
  {
    if OccursAt(text, pat, from) then Some(from)
    else if from == |text| then None
    else FindFrom(text, pat, from + 1)
  }

  /** Python's `text.find(pat)`, with `None` for -1. */
  function Find(text: string, pat: string): (r: Option<nat>)
    ensures r.Some? <==> Contains(text, pat)
    ensures r.Some? ==> FirstOccurrence(text, pat, r.value)
  {
    FindFrom(text, pat, 0)
  }

  /** Two first occurrences of a pattern are at the same index. */
  lemma FirstOccurrenceUnique(text: string, pat: string, i: nat, k: nat)
    requires FirstOccurrence(text, pat, i) && FirstOccurrence(text, pat, k)
    ensures i == k
  {
  }

  /** Python's `text.replace(pat, rep, 1)`: only the leftmost occurrence is replaced. */
  function ReplaceFirst(text: string, pat: string, rep: string): (r: string)
    ensures !Contains(text, pat) ==> r == text
    ensures forall i: nat {:trigger FirstOccurrence(text, pat, i)} ::
      FirstOccurrence(text, pat, i) ==> r == text[..i] + rep + text[i + |pat|..]
  {
    match Find(text, pat)
    case None => text
    case Some(i) =>
      assert forall k: nat {:trigger FirstOccurrence(text, pat, k)} :: FirstOccurrence(text, pat, k) ==> k == i by {
        forall k: nat | FirstOccurrence(text, pat, k) ensures k == i {
          FirstOccurrenceUnique(text, pat, i, k);
        }
      }
      text[..i] + rep + text[i + |pat|..]
  }

  /** A string contains another of its own length only if the two are equal. */
  lemma {:induction false} ContainsSameLength(text: string, pat: string)
    requires |text| == |pat|
    ensures Contains(text, pat) <==> text == pat
  {
    if text == pat {
      assert OccursAt(text, pat, 0);
    }
  }

  /** Every string contains itself and the empty string. */
  lemma {:induction false} ContainsSelfAndEmpty(s: string)
    ensures Contains(s, s) && Contains(s, "")
  {
    assert OccursAt(s, s, 0);
    assert OccursAt(s, "", 0);
  }

  /**
   * A two-character pattern found in `a + b` lies inside `a`, inside `b`,
   * or straddles the join.
   */
  lemma {:induction false} ContainsPairInConcat(a: string, b: string, pat: string)
    requires |pat| == 2
    requires !Contains(a, pat) && !Contains(b, pat)
    requires !(|a| > 0 && |b| > 0 && a[|a| - 1] == pat[0] && b[0] == pat[1])
    ensures !Contains(a + b, pat)
  {
    if Contains(a + b, pat) {
      var i: nat :| i <= |a + b| && OccursAt(a + b, pat, i);
      if i + 2 <= |a| {
        assert (a + b)[i..i + 2] == a[i..i + 2];
        assert OccursAt(a, pat, i);
      } else if i >= |a| {
        assert (a + b)[i..i + 2] == b[i - |a|..i - |a| + 2];
        assert OccursAt(b, pat, i - |a|);
      }
    }
  }

  /** A string with no `pat` followed by `pat`: the first occurrence is at the join. */
  lemma {:induction false} FindAfterPrefix(a: string, pat: string, b: string)
    requires |pat| == 2 && pat[0] != pat[1]
    requires !Contains(a, pat)
    ensures FirstOccurrence(a + pat + b, pat, |a|)
    ensures ReplaceFirst(a + pat + b, pat, "") == a + b
  {
    var t := a + pat + b;
    assert t[|a|..|a| + 2] == pat;
    forall j: nat | j < |a|
      ensures !OccursAt(t, pat, j)
    {
      if j + 2 <= |a| {
        assert t[j..j + 2] == a[j..j + 2];
        assert !OccursAt(a, pat, j);
      } else {
        assert t[j..j + 2][1] == pat[0];
      }
    }
    assert FirstOccurrence(t, pat, |a|);
    assert t[..|a|] == a && t[|a| + 2..] == b;
  }

  /** An occurrence in `p + t` past the prefix is an occurrence in `t`. */
  lemma {:induction false} OccursPastPrefix(p: string, t: string, pat: string, j: nat)
    ensures OccursAt(p + t, pat, |p| + j) <==> OccursAt(t, pat, j)
  {
    if |p| + j + |pat| <= |p + t| {
      assert (p + t)[|p| + j..|p| + j + |pat|] == t[j..j + |pat|];
    }
  }

  /** No two-character pattern starts inside a prefix that holds none and cannot start one at its end. */
  lemma {:induction false} NotInPrefix(p: string, t: string, pat: string, j: nat)
    requires |pat| == 2 && j < |p|
    requires !Contains(p, pat)
    requires p[|p| - 1] != pat[0]
    ensures !OccursAt(p + t, pat, j)
  {
    if j + 2 <= |p| {
      assert (p + t)[j..j + 2] == p[j..j + 2];
      assert !OccursAt(p, pat, j);
    } else if j + 2 <= |p + t| {
      assert (p + t)[j] == p[|p| - 1];
    }
  }

  /** With no occurrence in `p` or across its join, `p + t` holds `pat` exactly when `t` does. */
  lemma {:induction false} ContainsPastPrefix(p: string, t: string, pat: string)
    requires |pat| == 2
    requires !Contains(p, pat)
    requires p == [] || p[|p| - 1] != pat[0]
    ensures Contains(p + t, pat) <==> Contains(t, pat)
  {
    if Contains(p + t, pat) {
      var i: nat :| i <= |p + t| && OccursAt(p + t, pat, i);
      if i < |p| {
        NotInPrefix(p, t, pat, i);
      } else {
        OccursPastPrefix(p, t, pat, i - |p|);
      }
    }
    if Contains(t, pat) {
      var k: nat :| k <= |t| && OccursAt(t, pat, k);
      OccursPastPrefix(p, t, pat, k);
    }
  }

  /** Under the same conditions, the first occurrence in `p + t` is the first in `t`, shifted. */
  lemma {:induction false} FirstOccurrencePastPrefix(p: string, t: string, pat: string, k: nat)
    requires |pat| == 2
    requires !Contains(p, pat)
    requires p == [] || p[|p| - 1] != pat[0]
    requires FirstOccurrence(t, pat, k)
    ensures FirstOccurrence(p + t, pat, |p| + k)
  {
    OccursPastPrefix(p, t, pat, k);
    forall j: nat | j < |p| + k
      ensures !OccursAt(p + t, pat, j)
    {
      if j < |p| {
        NotInPrefix(p, t, pat, j);
      } else {
        OccursPastPrefix(p, t, pat, j - |p|);
      }
    }
  }

  /**
   * Replacing the first `pat` in `p + t` leaves the prefix `p` alone when `p`
   * holds no `pat` and cannot start one at its join with `t`.
   */
  lemma {:induction false} ReplaceFirstAfterPrefix(p: string, t: string, pat: string, rep: string)
    requires |pat| == 2
    requires !Contains(p, pat)
    requires p == [] || p[|p| - 1] != pat[0]
    ensures ReplaceFirst(p + t, pat, rep) == p + ReplaceFirst(t, pat, rep)
  {
    ContainsPastPrefix(p, t, pat);
    var f := Find(t, pat);
    if f.Some? {
      var k := f.value;
      FirstOccurrencePastPrefix(p, t, pat, k);
      var s := p + t;
      assert ReplaceFirst(s, pat, rep) == s[..|p| + k] + rep + s[|p| + k + 2..];
      assert ReplaceFirst(t, pat, rep) == t[..k] + rep + t[k + 2..];
      assert s[..|p| + k] == p + t[..k];
      assert s[|p| + k + 2..] == t[k + 2..];
    }
  }

  // ---------------------------------------------------------------------
  // Quote doubling (CQL string literals)

  /** Python's `s.replace("'", "''")`: every single quote is doubled. */
  function DoubleQuotes(s: string): (r: string)
    ensures |r| >= |s|
    ensures forall c :: c in r <==> c in s
  {
    if s == [] then []
    else (if s[0] == '\'' then "''" else [s[0]]) + DoubleQuotes(s[1..])
  }

  /** Reads a doubled-quote body back: each `''` pair becomes one quote. */
  function UndoubleQuotes(s: string): (r: string)
  {
    if |s| >= 2 && s[0] == '\'' && s[1] == '\'' then "'" + UndoubleQuotes(s[2..])
    else if s == [] then []
    else [s[0]] + UndoubleQuotes(s[1..])
  }

  /** Quote doubling loses nothing: the original string can be read back. */
  lemma {:induction false} UndoubleDoubleQuotes(s: string)
    ensures UndoubleQuotes(DoubleQuotes(s)) == s
  {
    if s != [] {
      UndoubleDoubleQuotes(s[1..]);
      var rest := DoubleQuotes(s[1..]);
      if s[0] == '\'' {
        assert ("''" + rest)[2..] == rest;
      } else {
        assert ([s[0]] + rest)[1..] == rest;
        assert s == [s[0]] + s[1..];
      }
    }
  }

  /** Quote doubling works character by character, so it distributes over concatenation. */
  lemma {:induction false} DoubleQuotesConcat(a: string, b: string)
    ensures DoubleQuotes(a + b) == DoubleQuotes(a) + DoubleQuotes(b)
  {
    if a != [] {
      assert (a + b)[1..] == a[1..] + b;
      DoubleQuotesConcat(a[1..], b);
    } else {
      assert a + b == b;
    }
  }

  /** A string without quotes is left as it is. */
  lemma {:induction false} DoubleQuotesQuoteFree(s: string)
    requires '\'' !in s
    ensures DoubleQuotes(s) == s
  {
    if s != [] {
      assert '\'' !in s[1..] by {
        forall k | 0 <= k < |s[1..]| ensures s[1..][k] != '\'' {
          assert s[1..][k] == s[k + 1];
        }
      }
      DoubleQuotesQuoteFree(s[1..]);
      assert s == [s[0]] + s[1..];
    }
  }

  // ---------------------------------------------------------------------
  // Whitespace stripping

  /** The characters for which Python's `str.isspace()` holds. */
  predicate IsSpace(c: char) {
    ('\t' <= c <= '\r') || ('\U{1C}' <= c <= '\U{1F}') || c == ' '
    || c == '\U{85}' || c == '\U{A0}' || c == '\U{1680}'
    || ('\U{2000}' <= c <= '\U{200A}') || c == '\U{2028}' || c == '\U{2029}'
    || c == '\U{202F}' || c == '\U{205F}' || c == '\U{3000}'
  }

  /** The first index at or after `i` whose character is not whitespace, or `|s|`. */
  function LeadingEnd(s: string, i: nat): (r: nat)
    requires i <= |s|
    ensures i <= r <= |s|
    ensures forall k :: i <= k < r ==> IsSpace(s[k])
    ensures r < |s| ==> !IsSpace(s[r])
    decreases |s| - i
  {
    if i < |s| && IsSpace(s[i]) then LeadingEnd(s, i + 1) else i
  }

  /** The index after the last character before `j` that is not whitespace, but no lower than `lo`. */
  function TrailingStart(s: string, lo: nat, j: nat): (r: nat)
    requires lo <= j <= |s|
    ensures lo <= r <= j
    ensures forall k :: r <= k < j ==> IsSpace(s[k])
    ensures r > lo ==> !IsSpace(s[r - 1])
  {
    if j > lo && IsSpace(s[j - 1]) then TrailingStart(s, lo, j - 1) else j
  }

  /** `r` is `s[i..j]` and everything outside that slice is whitespace. */
  predicate TrimmedSlice(s: string, r: string, i: int, j: int) {
    0 <= i <= j <= |s| && r == s[i..j]
    && (forall k :: 0 <= k < i ==> IsSpace(s[k]))
    && (forall k :: j <= k < |s| ==> IsSpace(s[k]))
  }

  /** Python's `s.strip()`: leading and trailing whitespace removed. */
  function Strip(s: string): (r: string)
    ensures exists i, j :: TrimmedSlice(s, r, i, j)
    ensures r == [] || (!IsSpace(r[0]) && !IsSpace(r[|r| - 1]))
  {
    var i := LeadingEnd(s, 0);
    var j := TrailingStart(s, i, |s|);
    assert TrimmedSlice(s, s[i..j], i, j);
    s[i..j]
  }

  /** A string without whitespace at its ends is its own strip, even with trailing whitespace added. */
  lemma {:induction false} StripTrimmed(s: string, tail: string)
    requires s == [] || (!IsSpace(s[0]) && !IsSpace(s[|s| - 1]))
    requires forall k :: 0 <= k < |tail| ==> IsSpace(tail[k])
    ensures Strip(s + tail) == s
  {
    var i, j :| TrimmedSlice(s + tail, Strip(s + tail), i, j);
    if s != [] {
      assert (s + tail)[0] == s[0];
      assert (s + tail)[|s| - 1] == s[|s| - 1];
    }
  }

  /** Stripping twice is stripping once. */
  lemma StripIdempotent(s: string)
    ensures Strip(Strip(s)) == Strip(s)
  {
    StripTrimmed(Strip(s), "");
    assert Strip(s) + "" == Strip(s);
  }

  // ---------------------------------------------------------------------
  // Joining and splitting on a one-character separator

  /** Python's `sep.join(parts)` for a one-character separator. */
  function Join(parts: seq<string>, sep: char): (r: string)
  {
    if |parts| == 0 then ""
    else if |parts| == 1 then parts[0]
    else parts[0] + [sep] + Join(parts[1..], sep)
  }

  /** Python's `s.split(sep)` for a one-character separator: empty fields are kept. */
  function Split(s: string, sep: char): (r: seq<string>)
    ensures |r| >= 1
  {
    if s == [] then [""]
    else
      var rest := Split(s[1..], sep);
      if s[0] == sep then [""] + rest else [[s[0]] + rest[0]] + rest[1..]
  }

  lemma {:induction false} SplitPrefix(p: string, t: string, sep: char)
    requires sep !in p
    ensures Split(p + t, sep) == [p + Split(t, sep)[0]] + Split(t, sep)[1..]
  {
    if p != [] {
      var tail := Split(t, sep);
      SplitPrefix(p[1..], t, sep);
      assert (p + t)[1..] == p[1..] + t;
      var rest := Split(p[1..] + t, sep);
      assert rest[0] == p[1..] + tail[0] && rest[1..] == tail[1..];
      assert p[0] != sep && (p + t)[0] == p[0];
      assert Split(p + t, sep) == [[p[0]] + rest[0]] + rest[1..];
      assert [p[0]] + (p[1..] + tail[0]) == p + tail[0];
    } else {
      var tail := Split(t, sep);
      assert p + t == t && p + tail[0] == tail[0];
      assert [tail[0]] + tail[1..] == tail;
    }
  }

  /** Splitting a join gives the parts back when no part holds the separator. */
  lemma {:induction false} SplitJoin(parts: seq<string>, sep: char)
    requires |parts| >= 1
    requires forall i :: 0 <= i < |parts| ==> sep !in parts[i]
    ensures Split(Join(parts, sep), sep) == parts
  {
    if |parts| == 1 {
      SplitPrefix(parts[0], "", sep);
      assert parts[0] + "" == parts[0];
    } else {
      var rest := Join(parts[1..], sep);
      SplitJoin(parts[1..], sep);
      SplitPrefix(parts[0], [sep] + rest, sep);
      assert parts[0] + [sep] + rest == parts[0] + ([sep] + rest);
      assert ([sep] + rest)[1..] == rest;
      assert parts[0] + "" == parts[0];
      assert [parts[0]] + parts[1..] == parts;
    }
  }

  // ---------------------------------------------------------------------
  // Decimal rendering of integers

  predicate IsDigit(c: char) {
    '0' <= c <= '9'
  }

  function DigitChar(d: nat): (c: char)
    requires d < 10
    ensures IsDigit(c) && c as int - '0' as int == d
  {
    (d + '0' as int) as char
  }

  /** The decimal digits of `n`, most significant first, without leading zeros. */
  function NatToDecimal(n: nat): (r: string)
    ensures |r| >= 1 && (forall k :: 0 <= k < |r| ==> IsDigit(r[k]))
    ensures r[0] == '0' ==> n == 0
  {
    if n < 10 then [DigitChar(n)] else NatToDecimal(n / 10) + [DigitChar(n % 10)]
  }

  /** Python's `str(i)` for an int. */
  function IntToDecimal(i: int): (r: string)
    ensures |r| >= 1 && (forall k :: 0 <= k < |r| ==> r[k] == '-' || IsDigit(r[k]))
    ensures (r[0] == '-') <==> i < 0
  {
    if i < 0 then "-" + NatToDecimal(-i) else NatToDecimal(i)
  }

  function DigitsValue(s: string): (r: nat)
    requires forall k :: 0 <= k < |s| ==> IsDigit(s[k])
  {
    if s == [] then 0
    else
      assert IsDigit(s[|s| - 1]);
      DigitsValue(s[..|s| - 1]) * 10 + (s[|s| - 1] as int - '0' as int)
  }

  /** Reads a decimal integer written as by `IntToDecimal`. */
  function ParseDecimal(s: string): (r: int)
    requires |s| >= 1
    requires forall k :: 0 < k < |s| ==> IsDigit(s[k])
    requires s[0] == '-' || IsDigit(s[0])
  {
    if s[0] == '-' then -(DigitsValue(s[1..]) as int) else DigitsValue(s)
  }

  lemma {:induction false} DigitsValueNatToDecimal(n: nat)
    ensures DigitsValue(NatToDecimal(n)) == n
  {
    if n >= 10 {
      DigitsValueNatToDecimal(n / 10);
      var r := NatToDecimal(n);
      assert r[..|r| - 1] == NatToDecimal(n / 10);
    }
  }

  /** Decimal rendering is exact: the integer can be read back. */
  lemma {:induction false} ParseIntToDecimal(i: int)
    ensures ParseDecimal(IntToDecimal(i)) == i
  {
    if i < 0 {
      DigitsValueNatToDecimal(-i);
      assert IntToDecimal(i)[1..] == NatToDecimal(-i);
    } else {
      DigitsValueNatToDecimal(i);
    }
  }

  // ---------------------------------------------------------------------
  // UTF-8

  /** A continuation byte `10xxxxxx`. */
  predicate IsContinuation(b: byte) {
    0x80 <= b <= 0xBF
  }

  /** The scalar value spelled by a lead byte and its continuation bytes: the payload bits, high to low. */
  function CodePoint(r: seq<byte>): (n: int)
    requires 1 <= |r| <= 4
  {
    if |r| == 1 then r[0]
    else if |r| == 2 then (r[0] as int - 0xC0) * 0x40 + (r[1] as int - 0x80)
    else if |r| == 3 then (r[0] as int - 0xE0) * 0x1000 + (r[1] as int - 0x80) * 0x40 + (r[2] as int - 0x80)
    else (r[0] as int - 0xF0) * 0x4_0000 + (r[1] as int - 0x80) * 0x1000 + (r[2] as int - 0x80) * 0x40 + (r[3] as int - 0x80)
  }

  /** `n` written in base 64, the six-bit groups UTF-8 spreads over its bytes. */
  lemma SixBitGroups(n: nat)
    ensures n == (n / 0x40) * 0x40 + n % 0x40
    ensures n / 0x40 == (n / 0x1000) * 0x40 + (n / 0x40) % 0x40
    ensures n / 0x1000 == (n / 0x4_0000) * 0x40 + (n / 0x1000) % 0x40
  {
    var q := n / 0x40;
    assert n / 0x1000 == q / 0x40;
    assert n / 0x4_0000 == (q / 0x40) / 0x40;
  }

  /**
   * The UTF-8 encoding of one Unicode scalar value: the shortest form, with
   * the lead byte announcing the length, continuation bytes after it, and
   * the payload bits spelling the scalar value.
   */
  function Utf8Char(c: char): (r: seq<byte>)
    ensures 1 <= |r| <= 4
    ensures (c as int < 0x80) <==> |r| == 1
    ensures |r| == 2 <==> 0x80 <= c as int < 0x800
    ensures |r| == 3 <==> 0x800 <= c as int < 0x1_0000
    ensures |r| == 4 <==> 0x1_0000 <= c as int
    ensures |r| == 1 ==> r[0] < 0x80
    ensures |r| == 2 ==> 0xC2 <= r[0] <= 0xDF
    ensures |r| == 3 ==> 0xE0 <= r[0] <= 0xEF
    ensures |r| == 4 ==> 0xF0 <= r[0] <= 0xF4
    ensures forall k :: 1 <= k < |r| ==> IsContinuation(r[k])
    ensures CodePoint(r) == c as int
  {
    var n := c as int;
    SixBitGroups(n);
    if n < 0x80 then [n]
    else if n < 0x800 then [0xC0 + n / 0x40, 0x80 + n % 0x40]
    else if n < 0x1_0000 then [0xE0 + n / 0x1000, 0x80 + (n / 0x40) % 0x40, 0x80 + n % 0x40]
    else [0xF0 + n / 0x4_0000, 0x80 + (n / 0x1000) % 0x40, 0x80 + (n / 0x40) % 0x40, 0x80 + n % 0x40]
  }

  /** Python's `s.encode('utf-8')`. */
  function Utf8Encode(s: string): (r: seq<byte>)
    ensures |s| <= |r| <= 4 * |s|
    ensures (forall k :: 0 <= k < |s| ==> s[k] as int < 0x80) ==>
      |r| == |s| && forall k :: 0 <= k < |s| ==> r[k] == s[k] as int
  {
    if s == [] then [] else Utf8Char(s[0]) + Utf8Encode(s[1..])
  }

  /** Encoding is character by character: the encoding of a concatenation is the concatenation of the encodings. */
  lemma {:induction false} Utf8EncodeConcat(a: string, b: string)
    ensures Utf8Encode(a + b) == Utf8Encode(a) + Utf8Encode(b)
  {
    if a != [] {
      assert (a + b)[1..] == a[1..] + b;
      Utf8EncodeConcat(a[1..], b);
    } else {
      assert a + b == b;
    }
  }

  /** A key of one character is encoded as that character's bytes. */
  lemma Utf8EncodeOneChar(c: char)
    ensures Utf8Encode([c]) == Utf8Char(c)
  {
    assert [c][1..] == [];
  }

  /** `'é'.encode('utf-8')` is the two bytes C3 A9. */
  lemma Utf8EncodeExample()
    ensures Utf8Encode("\U{E9}") == [0xC3, 0xA9]
  {
    Utf8EncodeOneChar('\U{E9}');
  }
}
