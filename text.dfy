/**
 * The Java library string and number operations the assembler relies on:
 * String.trim, String.split("\\s+"), String.toUpperCase, Integer.parseInt(s, 16),
 * Integer.toBinaryString, String.format("%8s", ...) with String.replace, and
 * String.format("%02X", ...).  Characters are ASCII as far as case, digits and
 * whitespace are concerned.
 */
module Text {
  import opened Wrappers

  /** Java's 32-bit `int`. */
  newtype int32 = x: int | -0x8000_0000 <= x < 0x8000_0000

  // ---------------------------------------------------------------------------
  // Character classes
  // ---------------------------------------------------------------------------

  /** String.trim removes every leading and trailing character at or below U+0020. */
  predicate IsTrimmable(c: char) {
    c as int <= 0x20
  }

  /** The characters of the regular-expression class \s: space, \t, \n, \u000B, \f, \r. */
  predicate IsSpace(c: char) {
    c == ' ' || c == '\t' || c == '\n' || c == '\r' || c as int == 0x0B || c as int == 0x0C
  }

  predicate IsBit(c: char) {
    c == '0' || c == '1'
  }

  predicate IsBinary(s: string) {
    forall k :: 0 <= k < |s| ==> IsBit(s[k])
  }

  /** Value of an ASCII hexadecimal digit in either case, or -1 for any other character. */
  function HexDigitValue(c: char): (d: int)
    ensures -1 <= d < 16
    ensures d >= 0 <==> ('0' <= c <= '9' || 'a' <= c <= 'f' || 'A' <= c <= 'F')
  {
    if '0' <= c <= '9' then c as int - '0' as int
    else if 'a' <= c <= 'f' then c as int - 'a' as int + 10
    else if 'A' <= c <= 'F' then c as int - 'A' as int + 10
    else -1
  }

  predicate IsHexDigit(c: char) {
    HexDigitValue(c) >= 0
  }

  predicate IsHex(s: string) {
    forall k :: 0 <= k < |s| ==> IsHexDigit(s[k])
  }

  // ---------------------------------------------------------------------------
  // String.trim
  // ---------------------------------------------------------------------------

  /** The longest suffix of `s` whose first character does not satisfy `p`. */
  function DropWhile(s: string, p: char -> bool): (r: string)
    ensures |r| <= |s|
    ensures forall k :: 0 <= k < |s| - |r| ==> p(s[k])
    ensures r == [] || !p(r[0])
  {
    if s == [] || !p(s[0]) then s else DropWhile(s[1..], p)
  }

  /** What DropWhile leaves is a suffix of its argument. */
  lemma {:induction false} DropWhileSuffix(s: string, p: char -> bool)
    ensures DropWhile(s, p) == s[|s| - |DropWhile(s, p)|..]
  {
    if s != [] && p(s[0]) {
      DropWhileSuffix(s[1..], p);
    }
  }

  /** The first character DropWhile keeps is a character of `s` that fails `p`. */
  lemma FirstKept(s: string, p: char -> bool)
    requires DropWhile(s, p) != []
    ensures !p(s[|s| - |DropWhile(s, p)|])
  {
    DropWhileSuffix(s, p);
  }

  /** The longest prefix of `s` whose last character is not trimmable. */
  function TrimEnd(s: string): (r: string)
    ensures |r| <= |s| && r == s[..|r|]
    ensures forall k :: |r| <= k < |s| ==> IsTrimmable(s[k])
    ensures r == [] || !IsTrimmable(r[|r| - 1])
  {
    if s == [] || !IsTrimmable(s[|s| - 1]) then s else TrimEnd(s[..|s| - 1])
  }

  /** Number of leading characters String.trim removes. */
  function TrimOffset(s: string): (i: nat)
    ensures i <= |s|
  {
    |s| - |DropWhile(s, IsTrimmable)|
  }

  /** String.trim: `s` without its leading and trailing characters at or below U+0020. */
  function Trim(s: string): (r: string)
    ensures |r| <= |s|
    ensures r == [] || (!IsTrimmable(r[0]) && !IsTrimmable(r[|r| - 1]))
  {
    TrimEnd(DropWhile(s, IsTrimmable))
  }

  /**
   * Trim removes exactly a run of trimmable characters at each end: the result
   * is the slice of `s` after the first TrimOffset(s) characters, and every
   * character cut off on either side is at or below U+0020.
   */
  lemma TrimSlice(s: string)
    ensures TrimOffset(s) + |Trim(s)| <= |s|
    ensures Trim(s) == s[TrimOffset(s)..TrimOffset(s) + |Trim(s)|]
    ensures forall k :: 0 <= k < TrimOffset(s) ==> IsTrimmable(s[k])
    ensures forall k :: TrimOffset(s) + |Trim(s)| <= k < |s| ==> IsTrimmable(s[k])
  {
    var t := DropWhile(s, IsTrimmable);
    DropWhileSuffix(s, IsTrimmable);
    TrimmedTail(s, |s| - |t|, TrimEnd(t));
  }

  /** A prefix `r` of the suffix `s[i..]`, followed there only by trimmable characters. */
  lemma TrimmedTail(s: string, i: nat, r: string)
    requires i <= |s| && |r| <= |s| - i && r == s[i..][..|r|]
    requires forall k :: |r| <= k < |s| - i ==> IsTrimmable(s[i..][k])
    ensures r == s[i..i + |r|]
    ensures forall k :: i + |r| <= k < |s| ==> IsTrimmable(s[k])
  {
    forall k | i + |r| <= k < |s|
      ensures IsTrimmable(s[k])
    {
      assert s[k] == s[i..][k - i];
    }
  }

  // ---------------------------------------------------------------------------
  // String.split("\\s+")
  // ---------------------------------------------------------------------------

  /** Length of the leading run of characters outside \s. */
  function WordLength(s: string): (n: nat)
    ensures n <= |s|
    ensures forall k :: 0 <= k < n ==> !IsSpace(s[k])
    ensures n == |s| || IsSpace(s[n])
  {
    if s == [] || IsSpace(s[0]) then 0 else 1 + WordLength(s[1..])
  }

  predicate IsWord(w: string) {
    w != [] && forall k :: 0 <= k < |w| ==> !IsSpace(w[k])
  }

  /**
   * The maximal runs of characters outside \s, in order.  On a string that
   * neither starts nor ends with a \s character, and is not empty, this is what
   * Java's split("\\s+") returns (no leading or trailing empty token arises).
   */
  function Split(s: string): (ws: seq<string>)
    ensures forall i :: 0 <= i < |ws| ==> IsWord(ws[i])
    ensures s != [] && !IsSpace(s[0]) ==> ws != [] && ws[0] == s[..WordLength(s)]
    ensures (forall k :: 0 <= k < |s| ==> IsSpace(s[k])) <==> ws == []
    decreases |s|
  {
    var t := DropWhile(s, IsSpace);
    if t == [] then []
    else
      FirstKept(s, IsSpace);
      var n := WordLength(t);
      [t[..n]] + Split(t[n..])
  }

  /** Words joined by single spaces: the inverse of Split on well-formed text. */
  function JoinWords(ws: seq<string>): string {
    if ws == [] then []
    else if |ws| == 1 then ws[0]
    else ws[0] + " " + JoinWords(ws[1..])
  }

  lemma {:induction false} WordLengthOfWord(w: string, rest: string)
    requires IsWord(w) && (rest == [] || IsSpace(rest[0]))
    ensures WordLength(w + rest) == |w|
    decreases |w|
  {
    assert (w + rest)[0] == w[0];
    if |w| > 1 {
      assert (w + rest)[1..] == w[1..] + rest;
      WordLengthOfWord(w[1..], rest);
    } else {
      assert (w + rest)[1..] == rest;
    }
  }

  /** A word at the front, ended by a space or by the end of the text, is the first token. */
  lemma SplitWordFirst(w: string, rest: string)
    requires IsWord(w) && (rest == [] || IsSpace(rest[0]))
    ensures Split(w + rest) == [w] + Split(rest)
  {
    var s := w + rest;
    assert s[0] == w[0];
    assert DropWhile(s, IsSpace) == s;
    WordLengthOfWord(w, rest);
    assert s[..|w|] == w && s[|w|..] == rest;
  }

  /**
   * A leading \s character is not a token.  With SplitWordFirst and the
   * all-\s clause of Split this fixes Split on every string: runs of any
   * \s characters separate tokens, and each token is a maximal run.
   */
  lemma SplitSpaceFirst(c: char, s: string)
    requires IsSpace(c)
    ensures Split([c] + s) == Split(s)
  {
    assert ([c] + s)[1..] == s;
    assert DropWhile([c] + s, IsSpace) == DropWhile(s, IsSpace);
  }

  /** Splitting words joined by single spaces gives the words back. */
  lemma {:induction false} SplitJoinWords(ws: seq<string>)
    requires forall i :: 0 <= i < |ws| ==> IsWord(ws[i])
    ensures Split(JoinWords(ws)) == ws
    decreases |ws|
  {
    if |ws| == 1 {
      SplitWordFirst(ws[0], []);
      assert ws[0] + [] == ws[0];
    } else if |ws| > 1 {
      SplitJoinWords(ws[1..]);
      SplitJoinStep(ws[0], ws[1..]);
      assert [ws[0]] + ws[1..] == ws;
    }
  }

  /** One more word in front of a nonempty joined list is one more token. */
  lemma SplitJoinStep(w: string, rest: seq<string>)
    requires IsWord(w) && rest != [] && Split(JoinWords(rest)) == rest
    ensures Split(JoinWords([w] + rest)) == [w] + rest
  {
    var j := JoinWords(rest);
    assert ([w] + rest)[0] == w && ([w] + rest)[1..] == rest;
    assert JoinWords([w] + rest) == w + (" " + j);
    SplitWordFirst(w, " " + j);
    SplitSpaceFirst(' ', j);
  }

  // ---------------------------------------------------------------------------
  // String.toUpperCase (ASCII letters only)
  // ---------------------------------------------------------------------------

  function UpperChar(c: char): char {
    if 'a' <= c <= 'z' then (c as int - 32) as char else c
  }

  function LowerChar(c: char): char {
    if 'A' <= c <= 'Z' then (c as int + 32) as char else c
  }

  /** Each lower-case ASCII letter replaced by its upper-case form, everything else kept. */
  function ToUpper(s: string): (r: string)
    ensures |r| == |s|
    ensures forall k :: 0 <= k < |s| ==> r[k] == UpperChar(s[k])
    ensures forall k :: 0 <= k < |r| ==> !('a' <= r[k] <= 'z')
  {
    if s == [] then [] else [UpperChar(s[0])] + ToUpper(s[1..])
  }

  function ToLower(s: string): (r: string)
    ensures |r| == |s|
    ensures forall k :: 0 <= k < |s| ==> r[k] == LowerChar(s[k])
  {
    if s == [] then [] else [LowerChar(s[0])] + ToLower(s[1..])
  }

  /** Case is forgotten: upper-casing a lower-cased string equals upper-casing the original. */
  lemma {:induction false} UpperOfLower(s: string)
    ensures ToUpper(ToLower(s)) == ToUpper(s)
  {
    if s != [] {
      UpperOfLower(s[1..]);
      assert ToLower(s)[1..] == ToLower(s[1..]);
    }
  }

  // ---------------------------------------------------------------------------
  // Integer.parseInt(s, 16)
  // ---------------------------------------------------------------------------

  /** The value of a string of hexadecimal digits, most significant first. */
  function HexValue(ds: string): nat
    requires IsHex(ds)
  {
    if ds == [] then 0 else HexValue(ds[..|ds| - 1]) * 16 + HexDigitValue(ds[|ds| - 1])
  }

  /**
   * Integer.parseInt(s, 16): an optional '-' or '+', then one or more hexadecimal
   * digits, whose signed value must fit an `int`; anything else throws
   * NumberFormatException, here None.
   */
  function ParseInt16(s: string): (r: Option<int32>)
    ensures r.Some? ==> |s| >= 1 && (IsHexDigit(s[0]) || s[0] == '-' || s[0] == '+')
    ensures r.Some? ==> IsHex(s[1..])
    ensures r.Some? && s[0] == '-' ==> r.value <= 0
    ensures r.Some? ==> IsHexDigit(s[|s| - 1])
  {
    if s == [] then None
    else
      var negative := s[0] == '-';
      var digits := if s[0] == '-' || s[0] == '+' then s[1..] else s;
      if digits == [] || !IsHex(digits) then None
      else
        var magnitude := HexValue(digits) as int;
        var v := if negative then -magnitude else magnitude;
        if -0x8000_0000 <= v < 0x8000_0000 then Some(v as int32) else None
  }

  // ---------------------------------------------------------------------------
  // Rendering: String.format("%02X", n) and Integer.toBinaryString(n)
  // ---------------------------------------------------------------------------

  function HexChar(d: nat): (c: char)
    requires d < 16
    ensures HexDigitValue(c) == d && !('a' <= c <= 'z')
  {
    if d < 10 then ('0' as int + d) as char else ('A' as int + d - 10) as char
  }

  /** Upper-case hexadecimal digits of `n` without leading zeros ("0" for zero). */
  function ToHexString(n: nat): (r: string)
    ensures 1 <= |r| && IsHex(r)
    ensures n >= 16 ==> |r| >= 2
    ensures n >= 1 ==> r[0] != '0'
    ensures forall k :: 0 <= k < |r| ==> !('a' <= r[k] <= 'z')
    decreases n
  {
    if n < 16 then [HexChar(n)] else ToHexString(n / 16) + [HexChar(n % 16)]
  }

  /** String.format("%02X", n): upper-case hexadecimal, zero-padded to at least two digits. */
  function FormatHex2(n: nat): (r: string)
    ensures 2 <= |r| && IsHex(r)
    ensures |r| > 2 ==> r[0] != '0'
    ensures forall k :: 0 <= k < |r| ==> !('a' <= r[k] <= 'z')
  {
    var h := ToHexString(n);
    if |h| < 2 then "0" + h else h
  }

  lemma {:induction false} ToHexStringValue(n: nat)
    ensures HexValue(ToHexString(n)) == n
    decreases n
  {
    if n >= 16 {
      ToHexStringValue(n / 16);
      var h := ToHexString(n);
      assert h[..|h| - 1] == ToHexString(n / 16);
    }
  }

  lemma {:induction false} ToHexStringLength(n: nat)
    ensures n < 16 <==> |ToHexString(n)| == 1
    ensures n < 256 <==> |ToHexString(n)| <= 2
    decreases n
  {
    if n >= 16 {
      ToHexStringLength(n / 16);
    }
  }

  /** A leading zero digit does not change a hexadecimal value. */
  lemma {:induction false} HexValueLeadingZero(ds: string)
    requires IsHex(ds)
    ensures IsHex("0" + ds) && HexValue("0" + ds) == HexValue(ds)
    decreases |ds|
  {
    if ds != [] {
      HexValueLeadingZero(ds[..|ds| - 1]);
      assert ("0" + ds)[..|ds|] == "0" + ds[..|ds| - 1];
    }
  }

  /** The %02X rendering is exactly two digits for one byte and widens, never wraps, above it. */
  lemma FormatHex2Width(n: nat)
    ensures n < 256 <==> |FormatHex2(n)| == 2
  {
    ToHexStringLength(n);
  }

  /** Reading a %02X rendering back with Integer.parseInt(s, 16) gives the number back. */
  lemma FormatHex2RoundTrip(n: nat)
    requires n < 0x8000_0000
    ensures ParseInt16(FormatHex2(n)) == Some(n as int32)
  {
    ToHexStringValue(n);
    var h := ToHexString(n);
    if |h| < 2 {
      HexValueLeadingZero(h);
    }
    var f := FormatHex2(n);
    assert HexDigitValue(f[0]) >= 0;
  }

  /** Unsigned digits read as their value when it fits an `int`, and are rejected otherwise. */
  lemma ParseDigits(ds: string)
    requires ds != [] && IsHex(ds)
    ensures ParseInt16(ds) == if HexValue(ds) < 0x8000_0000 then Some(HexValue(ds) as int32) else None
  {
    assert IsHexDigit(ds[0]);
  }

  /** A sign followed by digits reads as the signed value when it fits an `int`, down to -2^31. */
  lemma ParseSigned(sign: char, ds: string)
    requires (sign == '-' || sign == '+') && ds != [] && IsHex(ds)
    ensures var v := if sign == '-' then -(HexValue(ds) as int) else HexValue(ds) as int;
            ParseInt16([sign] + ds) == if -0x8000_0000 <= v < 0x8000_0000 then Some(v as int32) else None
  {
    assert ([sign] + ds)[0] == sign && ([sign] + ds)[1..] == ds;
  }

  function BitChar(b: nat): (c: char)
    requires b < 2
    ensures IsBit(c)
  {
    if b == 0 then '0' else '1'
  }

  /** The value of a string of binary digits, most significant first. */
  function BinaryValue(bs: string): nat
    requires IsBinary(bs)
  {
    if bs == [] then 0
    else BinaryValue(bs[..|bs| - 1]) * 2 + (if bs[|bs| - 1] == '1' then 1 else 0)
  }

  /** Integer.toBinaryString for a non-negative value: binary digits without leading zeros. */
  function ToBinaryString(n: nat): (r: string)
    ensures 1 <= |r| && IsBinary(r)
    decreases n
  {
    if n < 2 then [BitChar(n)] else ToBinaryString(n / 2) + [BitChar(n % 2)]
  }

  lemma {:induction false} ToBinaryStringValue(n: nat)
    ensures BinaryValue(ToBinaryString(n)) == n
    decreases n
  {
    if n >= 2 {
      ToBinaryStringValue(n / 2);
      var b := ToBinaryString(n);
      assert b[..|b| - 1] == ToBinaryString(n / 2);
    }
  }

  /** A value below 2^k has at most k binary digits. */
  lemma {:induction false} ToBinaryStringShort(n: nat, k: nat)
    requires 1 <= k && n < Pow2(k)
    ensures |ToBinaryString(n)| <= k
    decreases n
  {
    if n >= 2 {
      assert k >= 2;
      ToBinaryStringShort(n / 2, k - 1);
    }
  }

  function Pow2(k: nat): (p: nat)
    ensures p >= 1
  {
    if k == 0 then 1 else 2 * Pow2(k - 1)
  }

  /** Binary strings of one length are equal exactly when their values are. */
  lemma {:induction false} BinaryValueInjective(a: string, b: string)
    requires IsBinary(a) && IsBinary(b) && |a| == |b|
    requires BinaryValue(a) == BinaryValue(b)
    ensures a == b
    decreases |a|
  {
    if a != [] {
      var m := |a| - 1;
      assert IsBit(a[m]) && IsBit(b[m]);
      assert a[m] == b[m];
      BinaryValueInjective(a[..m], b[..m]);
      assert a == a[..m] + [a[m]] && b == b[..m] + [b[m]];
    }
  }

  /** Leading zeros do not change a binary value. */
  lemma {:induction false} BinaryValueLeadingZeros(z: nat, bs: string)
    requires IsBinary(bs)
    ensures IsBinary(Repeat('0', z) + bs) && BinaryValue(Repeat('0', z) + bs) == BinaryValue(bs)
    decreases |bs|
  {
    var s := Repeat('0', z) + bs;
    if bs == [] {
      assert s == Repeat('0', z);
      ZerosValue(z);
    } else {
      BinaryValueLeadingZeros(z, bs[..|bs| - 1]);
      assert s[..|s| - 1] == Repeat('0', z) + bs[..|bs| - 1];
    }
  }

  lemma {:induction false} ZerosValue(z: nat)
    ensures IsBinary(Repeat('0', z)) && BinaryValue(Repeat('0', z)) == 0
  {
    if z > 0 {
      ZerosValue(z - 1);
      assert Repeat('0', z)[..z - 1] == Repeat('0', z - 1);
    }
  }

  /** A string of `n` copies of `c`. */
  function Repeat(c: char, n: nat): (r: string)
    ensures |r| == n && forall k :: 0 <= k < n ==> r[k] == c
  {
    if n == 0 then [] else Repeat(c, n - 1) + [c]
  }

  /** String.format("%" + width + "s", s): `s` right-justified in a field of `width` spaces. */
  function PadLeft(s: string, width: nat): (r: string)
    ensures |s| < width ==> r == Repeat(' ', width - |s|) + s
    ensures |s| >= width ==> r == s
  {
    if |s| < width then Repeat(' ', width - |s|) + s else s
  }

  /** String.replace(from, to) on characters: every `from` becomes `to`. */
  function Replace(s: string, from: char, to: char): (r: string)
    ensures |r| == |s|
    ensures forall k :: 0 <= k < |s| ==> r[k] == (if s[k] == from then to else s[k])
  {
    if s == [] then [] else [if s[0] == from then to else s[0]] + Replace(s[1..], from, to)
  }

  /**
   * Padding binary digits to a width with spaces and then turning the spaces
   * into zeros gives the digits behind leading zeros: the same value.
   */
  lemma PadWithZeros(bs: string, width: nat)
    requires IsBinary(bs) && |bs| <= width
    ensures Replace(PadLeft(bs, width), ' ', '0') == Repeat('0', width - |bs|) + bs
    ensures IsBinary(Repeat('0', width - |bs|) + bs)
    ensures BinaryValue(Repeat('0', width - |bs|) + bs) == BinaryValue(bs)
  {
    var z := width - |bs|;
    assert PadLeft(bs, width) == Repeat(' ', z) + bs by {
      if z == 0 {
        assert Repeat(' ', 0) + bs == bs;
      }
    }
    ReplaceSpaces(z, bs);
    BinaryValueLeadingZeros(z, bs);
  }

  /** Turning the spaces of `z` spaces before a space-free `bs` into zeros. */
  lemma ReplaceSpaces(z: nat, bs: string)
    requires forall k :: 0 <= k < |bs| ==> bs[k] != ' '
    ensures Replace(Repeat(' ', z) + bs, ' ', '0') == Repeat('0', z) + bs
  {
    ReplaceAppend(Repeat(' ', z), bs, ' ', '0');
    ReplaceRepeat(z);
    ReplaceAbsent(bs, ' ', '0');
  }

  /** Replace works character by character, so it distributes over concatenation. */
  lemma ReplaceAppend(a: string, b: string, from: char, to: char)
    ensures Replace(a + b, from, to) == Replace(a, from, to) + Replace(b, from, to)
  {
    var l, r := Replace(a + b, from, to), Replace(a, from, to) + Replace(b, from, to);
    forall k | 0 <= k < |l|
      ensures l[k] == r[k]
    {
      if k < |a| {
        assert (a + b)[k] == a[k];
      } else {
        assert (a + b)[k] == b[k - |a|];
      }
    }
  }

  lemma ReplaceRepeat(z: nat)
    ensures Replace(Repeat(' ', z), ' ', '0') == Repeat('0', z)
  {
    var l, r := Replace(Repeat(' ', z), ' ', '0'), Repeat('0', z);
    assert forall k :: 0 <= k < z ==> l[k] == r[k];
  }

  /** A string without `from` is left unchanged. */
  lemma ReplaceAbsent(s: string, from: char, to: char)
    requires forall k :: 0 <= k < |s| ==> s[k] != from
    ensures Replace(s, from, to) == s
  {
    var r := Replace(s, from, to);
    assert forall k :: 0 <= k < |s| ==> r[k] == s[k];
  }

}
