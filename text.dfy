/** The string operations of the .NET base library that the modelled code relies on:
    Trim, Split, string.Join, EndsWith, LastIndexOf, int.Parse and ToString("Dn"). */
module Text {
  import opened Wrappers

  /** char.IsWhiteSpace, restricted to the Latin-1 range. */
  predicate IsWhiteSpace(c: char) {
    c == ' ' || ('\t' <= c <= '\r') || c == '\U{85}' || c == '\U{A0}'
  }

  /** The white space int.Parse skips around a number (NumberStyles.Integer). */
  predicate IsNumberWhite(c: char) {
    c == ' ' || ('\t' <= c <= '\r')
  }

  /** Drops the leading characters that satisfy `w`. */
  function TrimStart(s: string, w: char -> bool): (r: string)
    ensures |r| <= |s| && r == s[|s| - |r|..]
    ensures forall i :: 0 <= i < |s| - |r| ==> w(s[i])
    ensures r == [] || !w(r[0])
    decreases |s|
  {
    if |s| > 0 && w(s[0]) then TrimStart(s[1..], w) else s
  }

  /** Drops the trailing characters that satisfy `w`. */
  function TrimEnd(s: string, w: char -> bool): (r: string)
    ensures |r| <= |s| && r == s[..|r|]
    ensures forall i :: |r| <= i < |s| ==> w(s[i])
    ensures r == [] || !w(r[|r| - 1])
    decreases |s|
  {
    if |s| > 0 && w(s[|s| - 1]) then TrimEnd(s[..|s| - 1], w) else s
  }

  function Strip(s: string, w: char -> bool): string {
    TrimEnd(TrimStart(s, w), w)
  }

  /** Trimming the end of a suffix of `s` leaves white characters after it in `s`. */
  lemma TrimEndOfSuffix(s: string, off: nat, w: char -> bool)
    requires off <= |s|
    ensures var t := TrimEnd(s[off..], w);
      && off + |t| <= |s| && t == s[off..off + |t|]
      && (forall i :: off + |t| <= i < |s| ==> w(s[i]))
  {
    var ts := s[off..];
    var t := TrimEnd(ts, w);
    assert t == ts[..|t|];
    forall i | off + |t| <= i < |s|
      ensures w(s[i])
    {
      assert s[i] == ts[i - off];
    }
  }

  /** What Strip leaves is the infix of `s` between a white prefix and a white suffix. */
  lemma StripParts(s: string, w: char -> bool)
    ensures var t := Strip(s, w); var off := |s| - |TrimStart(s, w)|;
      && off + |t| <= |s| && t == s[off..off + |t|]
      && (forall i :: 0 <= i < off ==> w(s[i]))
      && (forall i :: off + |t| <= i < |s| ==> w(s[i]))
  {
    var ts := TrimStart(s, w);
    assert Strip(s, w) == TrimEnd(ts, w);
    TrimEndParts(s, w, ts);
  }

  /** StripParts for a given trimmed start `ts`. */
  lemma TrimEndParts(s: string, w: char -> bool, ts: string)
    requires |ts| <= |s| && ts == s[|s| - |ts|..]
    ensures var t := TrimEnd(ts, w); var off := |s| - |ts|;
      && off + |t| <= |s| && t == s[off..off + |t|]
      && (forall i :: off + |t| <= i < |s| ==> w(s[i]))
  {
    TrimEndOfSuffix(s, |s| - |ts|, w);
  }

  /** All characters of `s` are white space. */
  predicate AllWhite(s: string) {
    forall i :: 0 <= i < |s| ==> IsWhiteSpace(s[i])
  }

  lemma AllWhiteSlice(s: string, lo: nat, hi: nat)
    requires lo <= hi <= |s|
    requires forall i :: lo <= i < hi ==> IsWhiteSpace(s[i])
    ensures AllWhite(s[lo..hi])
  {
    var t := s[lo..hi];
    forall k | 0 <= k < |t|
      ensures IsWhiteSpace(t[k])
    {
      assert t[k] == s[lo + k];
    }
  }

  /** `r` is what is left of `s` once a white prefix and a white suffix are removed. */
  ghost predicate WhiteFramed(r: string, s: string) {
    exists i :: FramedAt(r, s, i)
  }

  /** `r` sits in `s` at position `i`, with only white space before and after it. */
  ghost predicate FramedAt(r: string, s: string, i: int) {
    0 <= i <= |s| - |r| && r == s[i..i + |r|] && AllWhite(s[..i]) && AllWhite(s[i + |r|..])
  }

  /** A prefix of white characters is AllWhite. */
  lemma WhitePrefixOf(s: string, k: nat)
    requires k <= |s| && forall i :: 0 <= i < k ==> IsWhiteSpace(s[i])
    ensures AllWhite(s[..k])
  {
    AllWhiteSlice(s, 0, k);
    assert s[..k] == s[0..k];
  }

  /** A suffix of white characters is AllWhite. */
  lemma WhiteSuffixOf(s: string, k: nat)
    requires k <= |s| && forall i :: k <= i < |s| ==> IsWhiteSpace(s[i])
    ensures AllWhite(s[k..])
  {
    AllWhiteSlice(s, k, |s|);
    assert s[k..] == s[k..|s|];
  }

  /** A white prefix up to `off` and a white suffix from `off + |t|` frame `t`. */
  lemma FramedFromParts(s: string, t: string, off: nat)
    requires off + |t| <= |s| && t == s[off..off + |t|]
    requires forall i :: 0 <= i < off ==> IsWhiteSpace(s[i])
    requires forall i :: off + |t| <= i < |s| ==> IsWhiteSpace(s[i])
    ensures WhiteFramed(t, s)
  {
    WhitePrefixOf(s, off);
    WhiteSuffixOf(s, off + |t|);
    assert FramedAt(t, s, off);
  }

  /** Strip with white space removes a white prefix and a white suffix. */
  lemma StripWhite(s: string)
    ensures WhiteFramed(Strip(s, IsWhiteSpace), s)
  {
    StripParts(s, IsWhiteSpace);
    FramedFromParts(s, Strip(s, IsWhiteSpace), |s| - |TrimStart(s, IsWhiteSpace)|);
  }

  /** string.Trim(). */
  function Trim(s: string): string {
    Strip(s, IsWhiteSpace)
  }

  /** Trim removes a white prefix and a white suffix, and what it leaves neither starts nor
      ends with white space. */
  lemma TrimFramed(s: string)
    ensures var r := Trim(s);
      && (r == [] || (!IsWhiteSpace(r[0]) && !IsWhiteSpace(r[|r| - 1])))
      && WhiteFramed(r, s)
  {
    StripEnds(s, IsWhiteSpace);
    StripWhite(s);
  }

  /** What Strip leaves neither starts nor ends with a character it strips. */
  lemma StripEnds(s: string, w: char -> bool)
    ensures var r := Strip(s, w); r == [] || (!w(r[0]) && !w(r[|r| - 1]))
  {
    var t := TrimStart(s, w);
    var r := TrimEnd(t, w);
    if r != [] {
      assert r[0] == t[0];
    }
  }

  /** A string that neither starts nor ends with white space is its own trim. */
  lemma TrimUntouched(s: string)
    requires s == [] || (!IsWhiteSpace(s[0]) && !IsWhiteSpace(s[|s| - 1]))
    ensures Trim(s) == s
  {
    assert TrimStart(s, IsWhiteSpace) == s;
    assert TrimEnd(s, IsWhiteSpace) == s;
  }

  /** Trimming is idempotent. */
  lemma {:induction false} TrimIdempotent(s: string)
    ensures Trim(Trim(s)) == Trim(s)
  {
    StripEnds(s, IsWhiteSpace);
    TrimUntouched(Trim(s));
  }

  /** string.Join(sep, parts) for a one-character separator. */
  function Join(parts: seq<string>, sep: char): string {
    if |parts| == 0 then ""
    else if |parts| == 1 then parts[0]
    else parts[0] + [sep] + Join(parts[1..], sep)
  }

  /** string.Join("", parts). */
  function Concat(parts: seq<string>): string {
    if parts == [] then "" else parts[0] + Concat(parts[1..])
  }

  /** string.Split(sep) with a one-character separator: every occurrence splits,
      and empty pieces are kept. */
  function Split(s: string, c: char): (parts: seq<string>)
    ensures |parts| >= 1
    ensures forall i :: 0 <= i < |parts| ==> c !in parts[i]
    decreases |s|
  {
    if s == [] then [""]
    else
      var rest := Split(s[1..], c);
      if s[0] == c then [""] + rest
      else [[s[0]] + rest[0]] + rest[1..]
  }

  /** Joining the pieces of a split with the same separator gives back the string. */
  lemma {:induction false} JoinSplit(s: string, c: char)
    ensures Join(Split(s, c), c) == s
    decreases |s|
  {
    if s != [] {
      var rest := Split(s[1..], c);
      JoinSplit(s[1..], c);
      if s[0] == c {
        assert Split(s, c) == [""] + rest;
      } else {
        var parts := Split(s, c);
        assert parts == [[s[0]] + rest[0]] + rest[1..];
        if |rest| == 1 {
          assert Join(parts, c) == [s[0]] + rest[0];
        } else {
          assert parts[1..] == rest[1..];
          assert Join(rest, c) == rest[0] + [c] + Join(rest[1..], c);
          assert Join(parts, c) == [s[0]] + rest[0] + [c] + Join(rest[1..], c);
        }
      }
    }
  }

  lemma {:induction false} SplitWithout(a: string, c: char)
    requires c !in a
    ensures Split(a, c) == [a]
    decreases |a|
  {
    if a != [] {
      SplitWithout(a[1..], c);
      assert [a[0]] + a[1..] == a;
    }
  }

  lemma {:induction false} SplitAfterPiece(a: string, b: string, c: char)
    requires c !in a
    ensures Split(a + [c] + b, c) == [a] + Split(b, c)
    decreases |a|
  {
    if a == [] {
      assert a + [c] + b == [c] + b;
      assert ([c] + b)[1..] == b;
    } else {
      var s := a + [c] + b;
      assert s[1..] == a[1..] + [c] + b;
      SplitAfterPiece(a[1..], b, c);
      assert [a[0]] + a[1..] == a;
    }
  }

  /** Splitting a join of separator-free pieces gives back the pieces. */
  lemma {:induction false} SplitJoin(parts: seq<string>, c: char)
    requires |parts| >= 1
    requires forall i :: 0 <= i < |parts| ==> c !in parts[i]
    ensures Split(Join(parts, c), c) == parts
    decreases |parts|
  {
    if |parts| == 1 {
      SplitWithout(parts[0], c);
    } else {
      SplitJoin(parts[1..], c);
      SplitAfterPiece(parts[0], Join(parts[1..], c), c);
      assert [parts[0]] + parts[1..] == parts;
    }
  }

  /** A character found in none of the pieces and different from the separator is not in
      their join. */
  lemma {:induction false} JoinExcludes(parts: seq<string>, sep: char, c: char)
    requires c != sep
    requires forall i :: 0 <= i < |parts| ==> c !in parts[i]
    ensures c !in Join(parts, sep)
    decreases |parts|
  {
    if |parts| > 1 {
      JoinExcludes(parts[1..], sep, c);
    }
  }

  /** A character found in none of the pieces is not in their concatenation. */
  lemma {:induction false} ConcatExcludes(parts: seq<string>, c: char)
    requires forall i :: 0 <= i < |parts| ==> c !in parts[i]
    ensures c !in Concat(parts)
    decreases |parts|
  {
    if parts != [] {
      ConcatExcludes(parts[1..], c);
    }
  }

  function EndsWith(s: string, suffix: string): bool {
    |suffix| <= |s| && s[|s| - |suffix|..] == suffix
  }

  /** string.LastIndexOf(c). */
  function LastIndexOf(s: string, c: char): (r: Option<nat>)
    ensures r.Some? ==> r.value < |s| && s[r.value] == c && c !in s[r.value + 1..]
    ensures r.None? ==> c !in s
    decreases |s|
  {
    if s == [] then None
    else if s[|s| - 1] == c then Some(|s| - 1)
    else
      var r := LastIndexOf(s[..|s| - 1], c);
      assert s == s[..|s| - 1] + [s[|s| - 1]];
      r
  }

  predicate IsDigit(c: char) {
    '0' <= c <= '9'
  }

  predicate AllDigits(s: string) {
    forall i :: 0 <= i < |s| ==> IsDigit(s[i])
  }

  lemma DigitsExclude(s: string, c: char)
    requires AllDigits(s) && !IsDigit(c)
    ensures c !in s
  {
  }

  function DigitChar(d: nat): (c: char)
    requires d < 10
    ensures IsDigit(c)
  {
    ('0' as int + d) as char
  }

  /** The value of a string of decimal digits. */
  function DigitsValue(s: string): nat
    requires AllDigits(s)
  {
    if s == [] then 0 else DigitsValue(s[..|s| - 1]) * 10 + (s[|s| - 1] as int - '0' as int)
  }

  /** The shortest decimal representation of n (int.ToString() for n >= 0). */
  function NatToString(n: nat): (r: string)
    ensures |r| >= 1 && AllDigits(r)
  {
    if n < 10 then [DigitChar(n)] else NatToString(n / 10) + [DigitChar(n % 10)]
  }

  function Pow10(k: nat): nat {
    if k == 0 then 1 else 10 * Pow10(k - 1)
  }

  lemma {:induction false} NatToStringValue(n: nat)
    ensures DigitsValue(NatToString(n)) == n
  {
    if n >= 10 {
      NatToStringValue(n / 10);
      var s := NatToString(n);
      assert s[..|s| - 1] == NatToString(n / 10);
    }
  }

  lemma {:induction false} NatToStringLength(n: nat, k: nat)
    requires 1 <= k && n < Pow10(k)
    ensures |NatToString(n)| <= k
  {
    if n >= 10 {
      NatToStringLength(n / 10, k - 1);
    }
  }

  function Zeros(z: nat): (r: string)
    ensures |r| == z && AllDigits(r)
  {
    seq(z, _ => '0')
  }

  /** n.ToString("Dw") for n >= 0: the decimal digits, left-padded with zeros to width w. */
  function FormatD(n: nat, width: nat): (r: string)
    ensures AllDigits(r) && |r| >= 1 && |r| >= width
  {
    var s := NatToString(n);
    if |s| < width then Zeros(width - |s|) + s else s
  }

  lemma {:induction false} ZerosValue(z: nat)
    ensures DigitsValue(Zeros(z)) == 0
  {
    if z > 0 {
      assert Zeros(z)[..z - 1] == Zeros(z - 1);
      ZerosValue(z - 1);
    }
  }

  lemma {:induction false} LeadingZerosValue(z: nat, s: string)
    requires AllDigits(s)
    ensures DigitsValue(Zeros(z) + s) == DigitsValue(s)
    decreases |s|
  {
    if s == [] {
      assert Zeros(z) + s == Zeros(z);
      ZerosValue(z);
    } else {
      var t := Zeros(z) + s;
      assert t[..|t| - 1] == Zeros(z) + s[..|s| - 1];
      LeadingZerosValue(z, s[..|s| - 1]);
    }
  }

  lemma FormatDValue(n: nat, width: nat)
    ensures DigitsValue(FormatD(n, width)) == n
  {
    var s := NatToString(n);
    NatToStringValue(n);
    if |s| < width {
      LeadingZerosValue(width - |s|, s);
    }
  }

  lemma FormatDLength(n: nat, width: nat)
    requires 1 <= width && n < Pow10(width)
    ensures |FormatD(n, width)| == width
  {
    NatToStringLength(n, width);
  }

  const IntMin: int := -0x8000_0000
  const IntMax: int := 0x7FFF_FFFF

  /** A character int.Parse accepts somewhere in its input: a digit, a sign or white space. */
  predicate NumberChar(c: char) {
    IsDigit(c) || IsNumberWhite(c) || c == '-' || c == '+'
  }

  /** Text whose stripped middle is an optionally signed run of digits holds only number
      characters. */
  lemma NumberChars(s: string)
    requires AllDigits(SignedDigits(Strip(s, IsNumberWhite)))
    ensures forall i :: 0 <= i < |s| ==> NumberChar(s[i])
  {
    StripParts(s, IsNumberWhite);
    var t := Strip(s, IsNumberWhite);
    var off := |s| - |TrimStart(s, IsNumberWhite)|;
    forall i | 0 <= i < |s|
      ensures NumberChar(s[i])
    {
      if off <= i < off + |t| {
        var j := i - off;
        assert s[i] == t[j];
        if j > 0 && (t[0] == '-' || t[0] == '+') {
          assert t[j] == t[1..][j - 1];
        }
      }
    }
  }

  /** A plain run of digits has no white space to strip. */
  lemma StripDigits(s: string)
    requires |s| > 0 && AllDigits(s)
    ensures Strip(s, IsNumberWhite) == s
  {
    assert !IsNumberWhite(s[0]) && !IsNumberWhite(s[|s| - 1]);
    assert TrimStart(s, IsNumberWhite) == s;
  }

  /** int.Parse(s) with the invariant culture: optional white space around an optional
      sign and one or more decimal digits; the value must fit in an Int32. A character
      other than a digit, a sign or white space makes it a format error, and a plain run
      of digits denotes its decimal value. */
  function ParseInt(s: string): (r: Result<int>)
    ensures r.Ok? ==> IntMin <= r.value <= IntMax
    ensures r.Err? ==> r.error == FormatError || r.error == Overflow
    ensures r != Err(FormatError) ==> forall i :: 0 <= i < |s| ==> NumberChar(s[i])
    ensures |s| > 0 && AllDigits(s) ==>
      r == (if DigitsValue(s) <= IntMax then Ok(DigitsValue(s)) else Err(Overflow))
  {
    var t := Strip(s, IsNumberWhite);
    assert |s| > 0 && AllDigits(s) ==> t == s by {
      if |s| > 0 && AllDigits(s) {
        StripDigits(s);
      }
    }
    var r := ParseSigned(t);
    if r != Err(FormatError) then NumberChars(s); r else r
  }

  /** The digits of an optionally signed number: what follows a leading `-` or `+`. */
  function SignedDigits(t: string): (digits: string)
    ensures |digits| <= |t|
  {
    if |t| > 0 && (t[0] == '-' || t[0] == '+') then t[1..] else t
  }

  /** What int.Parse does once the white space around the text is stripped: an optional
      sign, then one or more digits whose value must fit in an Int32. */
  function ParseSigned(t: string): (r: Result<int>)
    ensures r.Ok? ==> IntMin <= r.value <= IntMax
    ensures r.Err? ==> r.error == FormatError || r.error == Overflow
    ensures r != Err(FormatError) <==> |SignedDigits(t)| > 0 && AllDigits(SignedDigits(t))
  {
    var negative := |t| > 0 && t[0] == '-';
    var digits := SignedDigits(t);
    if |digits| == 0 || !AllDigits(digits) then Err(FormatError)
    else
      var v: int := if negative then 0 - DigitsValue(digits) else DigitsValue(digits);
      if v < IntMin || v > IntMax then Err(Overflow) else Ok(v)
  }

  /** A sign before a run of digits: `+` keeps its value, `-` negates it, and the result
      must still fit in an Int32. */
  lemma ParseIntSigned(d: string)
    requires |d| > 0 && AllDigits(d)
    ensures ParseInt("+" + d) == ParseInt(d)
    ensures ParseInt("-" + d) == (if DigitsValue(d) <= -IntMin then Ok(0 - DigitsValue(d)) else Err(Overflow))
  {
    StripDigits(d);
    ParseIntIsSigned(d);
    assert "+" + d == ['+'] + d && "-" + d == ['-'] + d;
    StripSign('+', d);
    ParseIntIsSigned("+" + d);
    assert ParseSigned("+" + d) == ParseSigned(d);
    StripSign('-', d);
    ParseIntIsSigned("-" + d);
  }

  /** A sign before a run of digits has no white space to strip, and the digits follow it. */
  lemma StripSign(c: char, d: string)
    requires (c == '+' || c == '-') && |d| > 0 && AllDigits(d)
    ensures Strip([c] + d, IsNumberWhite) == [c] + d
    ensures SignedDigits([c] + d) == d && SignedDigits(d) == d
  {
    var t := [c] + d;
    assert t[1..] == d;
    assert IsDigit(d[0]) && IsDigit(d[|d| - 1]);
    assert !IsNumberWhite(t[0]) && !IsNumberWhite(t[|t| - 1]);
    assert TrimStart(t, IsNumberWhite) == t;
    assert TrimEnd(t, IsNumberWhite) == t;
  }

  /** int.Parse is the signed-number parse of the stripped text. */
  lemma ParseIntIsSigned(s: string)
    ensures ParseInt(s) == ParseSigned(Strip(s, IsNumberWhite))
  {
  }

  /** Removing leading characters that satisfy `w` from `s + t` removes them from `s`, and
      from `t` as well once `s` is used up. */
  lemma {:induction false} TrimStartAppend(s: string, t: string, w: char -> bool)
    ensures TrimStart(s + t, w) == if TrimStart(s, w) == [] then TrimStart(t, w) else TrimStart(s, w) + t
    decreases |s|
  {
    if |s| == 0 {
      assert s + t == t;
    } else if w(s[0]) {
      assert (s + t)[1..] == s[1..] + t;
      TrimStartAppend(s[1..], t, w);
    }
  }

  /** int.Parse looks at the text only through what is left once the white space around
      it is stripped. */
  lemma ParseIntSameStrip(a: string, b: string)
    requires Strip(a, IsNumberWhite) == Strip(b, IsNumberWhite)
    ensures ParseInt(a) == ParseInt(b)
  {
  }

  /** White space before or after the text does not change what int.Parse gives. */
  lemma ParseIntWhiteAround(s: string, c: char)
    requires IsNumberWhite(c)
    ensures ParseInt([c] + s) == ParseInt(s)
    ensures ParseInt(s + [c]) == ParseInt(s)
  {
    assert ([c] + s)[1..] == s;
    assert TrimStart([c] + s, IsNumberWhite) == TrimStart(s, IsNumberWhite);
    ParseIntSameStrip([c] + s, s);
    TrimStartAppend(s, [c], IsNumberWhite);
    var ts := TrimStart(s, IsNumberWhite);
    if ts == [] {
      assert TrimStart([c], IsNumberWhite) == TrimStart([c][1..], IsNumberWhite);
    } else {
      assert (ts + [c])[..|ts|] == ts;
    }
    ParseIntSameStrip(s + [c], s);
  }

  /** A character int.Parse never accepts makes the text a format error. */
  lemma ParseIntRejects(s: string, i: nat)
    requires i < |s| && !NumberChar(s[i])
    ensures ParseInt(s) == Err(FormatError)
  {
  }

  /** Parsing a zero-padded rendering of an Int32-sized natural gives it back. */
  lemma ParseFormatD(n: nat, width: nat)
    requires n <= IntMax
    ensures ParseInt(FormatD(n, width)) == Ok(n)
  {
    var f := FormatD(n, width);
    assert TrimStart(f, IsNumberWhite) == f;
    assert TrimEnd(f, IsNumberWhite) == f;
    FormatDValue(n, width);
  }
}
