/**
 * `url_decode` (server.c:40-56): `+` becomes a space, `%XY` becomes the byte
 * that `strtoul` reads from the two characters after the `%`, every other
 * character is copied. One output character per input step, so the output
 * is never longer than the input.
 *
 * A `%` with fewer than two characters after it makes the C loop read past
 * the end of its input; this model copies such a `%` as an ordinary
 * character instead.
 */
module UrlDecoding {
  import opened CStrings

  predicate IsHexDigit(c: char)
  {
    '0' <= c <= '9' || 'a' <= c <= 'f' || 'A' <= c <= 'F'
  }

  function HexDigitValue(c: char): (v: nat)
    requires IsHexDigit(c)
    ensures v < 16
  {
    if '0' <= c <= '9' then c as int - '0' as int
    else if 'a' <= c <= 'f' then c as int - 'a' as int + 10
    else c as int - 'A' as int + 10
  }

  /** The white space that `strtoul` skips in the C locale. */
  predicate IsSpace(c: char)
  {
    c == ' ' || c == '\t' || c == '\n' || c == 11 as char || c == 12 as char || c == '\r'
  }

  function SkipSpaces(s: string): (r: string)
    ensures |r| <= |s| && r == s[|s| - |r|..]
    ensures r != [] ==> !IsSpace(r[0])
  {
    if s != [] && IsSpace(s[0]) then SkipSpaces(s[1..]) else s
  }

  /** What `SkipSpaces` drops is white space and nothing else. */
  lemma {:induction false} SkipSpacesDropsOnlySpaces(s: string)
    ensures forall i :: 0 <= i < |s| - |SkipSpaces(s)| ==> IsSpace(s[i])
  {
    if s != [] && IsSpace(s[0]) {
      SkipSpacesDropsOnlySpaces(s[1..]);
      forall i | 1 <= i < |s| - |SkipSpaces(s)|
        ensures IsSpace(s[i])
      {
        assert s[1..][i - 1] == s[i];
      }
    }
  }

  /** The longest prefix of `s` made of hex digits. */
  function HexRun(s: string): (r: string)
    ensures r <= s
    ensures forall i :: 0 <= i < |r| ==> IsHexDigit(r[i])
    ensures |r| < |s| ==> !IsHexDigit(s[|r|])
  {
    if s != [] && IsHexDigit(s[0]) then [s[0]] + HexRun(s[1..]) else []
  }

  /** The number that a string of hex digits denotes, most significant first. */
  function HexValue(d: string): nat
    requires forall i :: 0 <= i < |d| ==> IsHexDigit(d[i])
  {
    if d == [] then 0 else 16 * HexValue(d[..|d| - 1]) + HexDigitValue(d[|d| - 1])
  }

  /** `unsigned long` arithmetic is modulo 2^64. */
  const ULongModulus: nat := 0x1_0000_0000_0000_0000

  /**
   * `strtoul(code, NULL, 16)` on the zero-terminated two-byte buffer `code`:
   * leading white space is skipped, an optional sign is read (a minus sign
   * negates modulo 2^64), then the longest run of hex digits is converted; no
   * digits give 0. A `0x` prefix only takes effect when a hex digit follows
   * it, which needs a third character, so the code `0x` reads as 0 (the `0`
   * alone, see EscapeOfHexThenOther); two hex digits cannot overflow.
   */
  function StrToUl16(code: string): nat
    requires |code| <= 2
  {
    var t := SkipSpaces(code);
    var negative := t != [] && t[0] == '-';
    var digits := if t != [] && (t[0] == '+' || t[0] == '-') then t[1..] else t;
    var magnitude := HexValue(HexRun(digits));
    if negative then (-(magnitude as int)) % ULongModulus else magnitude
  }

  /** The byte stored for `%` `hi` `lo`: `(char)strtoul(...)` keeps the low eight bits. */
  function EscapeByte(hi: char, lo: char): (c: char)
    ensures c as int < 256
  {
    (StrToUl16([hi, lo]) % 256) as char
  }

  /** The bytes `url_decode` writes for `s`, one per step. */
  function Decoded(s: string): (r: string)
    ensures |r| <= |s|
  {
    if s == [] then []
    else if s[0] == '%' && |s| >= 3 then [EscapeByte(s[1], s[2])] + Decoded(s[3..])
    else if s[0] == '+' then [' '] + Decoded(s[1..])
    else [s[0]] + Decoded(s[1..])
  }

  /** The character-by-character walk of `url_decode`, appending to `dest` one step at a time. */
  method UrlDecode(src: string) returns (dest: string)
    ensures dest == Decoded(src)
  {
    dest := [];
    var p := 0;
    while p < |src|
      invariant p <= |src|
      invariant dest + Decoded(src[p..]) == Decoded(src)
    {
      var c, next := DecodeStep(src, p);
      AppendIsAssociative(dest, [c], Decoded(src[next..]));
      dest := dest + [c];
      p := next;
    }
    assert src[p..] == [];
  }

  /**
   * The body of the `url_decode` loop at `p`: the character written and
   * where the next step starts.
   */
  method DecodeStep(src: string, p: nat) returns (c: char, next: nat)
    requires p < |src|
    ensures next == p + (if src[p] == '%' && p + 3 <= |src| then 3 else 1)
    ensures Decoded(src[p..]) == [c] + Decoded(src[next..])
  {
    if src[p] == '%' && p + 3 <= |src| {
      DecodedAtEscape(src, p);
      c, next := EscapeByte(src[p + 1], src[p + 2]), p + 3;
    } else if src[p] == '+' {
      DecodedAtSingle(src, p);
      c, next := ' ', p + 1;
    } else {
      DecodedAtSingle(src, p);
      c, next := src[p], p + 1;
    }
  }

  lemma AppendIsAssociative(a: string, b: string, c: string)
    ensures (a + b) + c == a + (b + c)
  {
  }

  /** A complete escape at `p` is one step of three characters. */
  lemma DecodedAtEscape(src: string, p: nat)
    requires p + 3 <= |src| && src[p] == '%'
    ensures Decoded(src[p..]) == [EscapeByte(src[p + 1], src[p + 2])] + Decoded(src[p + 3..])
  {
    var rest := src[p..];
    assert rest[0] == '%' && rest[1] == src[p + 1] && rest[2] == src[p + 2];
    assert rest[3..] == src[p + 3..];
  }

  /** Any other character at `p` is one step of one character: a space for `+`, itself otherwise. */
  lemma DecodedAtSingle(src: string, p: nat)
    requires p < |src| && !(src[p] == '%' && p + 3 <= |src|)
    ensures Decoded(src[p..]) == [if src[p] == '+' then ' ' else src[p]] + Decoded(src[p + 1..])
  {
    var rest := src[p..];
    assert rest[0] == src[p];
    assert rest[1..] == src[p + 1..];
  }

  /** `%XY` with two hex digits decodes to the byte whose value is XY. */
  lemma EscapeOfHexPair(hi: char, lo: char)
    requires IsHexDigit(hi) && IsHexDigit(lo)
    ensures EscapeByte(hi, lo) as int == 16 * HexDigitValue(hi) + HexDigitValue(lo)
  {
    var code := [hi, lo];
    assert SkipSpaces(code) == code;
    assert HexRun(code[1..]) == [lo];
    assert HexRun(code) == code;
    assert code[..1] == [hi];
    assert HexValue([hi]) == HexDigitValue(hi);
    var v := HexValue(code);
    assert v == 16 * HexDigitValue(hi) + HexDigitValue(lo) < 256;
    assert !(code[0] == '+' || code[0] == '-');
    assert StrToUl16(code) == v;
    assert v % 256 == v;
  }

  /**
   * `strtoul` stops at the first character that is not a digit: `%4G`
   * decodes to byte 4 ...
   */
  lemma EscapeOfHexThenOther(hi: char, lo: char)
    requires IsHexDigit(hi) && !IsHexDigit(lo)
    ensures EscapeByte(hi, lo) as int == HexDigitValue(hi)
  {
    var code := [hi, lo];
    assert SkipSpaces(code) == code;
    assert HexRun(code[1..]) == [];
    assert HexRun(code) == [hi];
    assert HexValue([hi]) == HexDigitValue(hi);
  }

  /** ... and an escape that starts with no number at all, such as `%ZZ`, decodes to NUL. */
  lemma EscapeOfNonNumber(hi: char, lo: char)
    requires !IsHexDigit(hi) && !IsSpace(hi) && hi != '+' && hi != '-'
    ensures EscapeByte(hi, lo) == '\0'
  {
    var code := [hi, lo];
    assert SkipSpaces(code) == code;
    assert HexRun(code) == [];
  }

  /** A minus sign negates: `%-1` decodes to byte 255. */
  lemma EscapeOfMinus(lo: char)
    requires IsHexDigit(lo)
    ensures EscapeByte('-', lo) as int == (256 - HexDigitValue(lo)) % 256
  {
    var code := ['-', lo];
    assert SkipSpaces(code) == code;
    assert code[1..] == [lo];
    assert HexRun([lo]) == [lo];
    assert HexValue([lo]) == HexDigitValue(lo);
    var v := HexDigitValue(lo);
    assert SkipSpaces(code)[1..] == [lo];
    assert StrToUl16(code) == (-(v as int)) % ULongModulus;
    NegatedLowByte(v);
  }

  /** The low byte of `-v` in 64-bit unsigned arithmetic is `-v` modulo 256. */
  lemma NegatedLowByte(v: nat)
    requires v < 256
    ensures ((-(v as int)) % ULongModulus) % 256 == (256 - v) % 256
  {
    if v > 0 {
      var q: int := ULongModulus / 256;
      assert ULongModulus == 256 * q;
      assert (-(v as int)) % ULongModulus == ULongModulus - v;
      assert ULongModulus - v == 256 * (q - 1) + (256 - v);
    }
  }

  /** Without escapes, decoding keeps the length and only turns `+` into a space. */
  lemma {:induction false} DecodedWithoutEscapes(s: string)
    requires '%' !in s
    ensures |Decoded(s)| == |s|
    ensures forall i :: 0 <= i < |s| ==> Decoded(s)[i] == (if s[i] == '+' then ' ' else s[i])
  {
    if s != [] {
      assert '%' !in s[1..] by {
        forall c | c in s[1..] ensures c != '%' {
          assert c in s;
        }
      }
      DecodedWithoutEscapes(s[1..]);
      var x := if s[0] == '+' then ' ' else s[0];
      assert Decoded(s) == [x] + Decoded(s[1..]);
      forall i | 1 <= i < |s|
        ensures Decoded(s)[i] == (if s[i] == '+' then ' ' else s[i])
      {
        assert Decoded(s)[i] == Decoded(s[1..])[i - 1];
        assert s[i] == s[1..][i - 1];
      }
    }
  }

  /** The upper-case hex digit for a value below 16. */
  function HexDigit(n: nat): (c: char)
    requires n < 16
    ensures IsHexDigit(c) && HexDigitValue(c) == n
  {
    if n < 10 then ('0' as int + n) as char else ('A' as int + n - 10) as char
  }

  predicate IsByteString(s: string)
  {
    forall i :: 0 <= i < |s| ==> s[i] as int < 256
  }

  /** Escapes every byte of `s` as `%XY`: the inverse of `Decoded`. */
  function PercentEncode(s: string): (r: string)
    requires IsByteString(s)
    ensures |r| == 3 * |s|
  {
    if s == [] then []
    else ['%', HexDigit(s[0] as int / 16), HexDigit(s[0] as int % 16)] + PercentEncode(s[1..])
  }

  /** Decoding undoes percent-encoding, for every byte string. */
  lemma {:induction false} DecodeOfPercentEncode(s: string)
    requires IsByteString(s)
    ensures Decoded(PercentEncode(s)) == s
  {
    if s != [] {
      var hi, lo := HexDigit(s[0] as int / 16), HexDigit(s[0] as int % 16);
      var rest := PercentEncode(s[1..]);
      var e := ['%', hi, lo] + rest;
      assert PercentEncode(s) == e;
      assert e[3..] == rest;
      var b := s[0] as int;
      EscapeOfHexPair(hi, lo);
      assert EscapeByte(hi, lo) as int == 16 * (b / 16) + b % 16 == b;
      DecodeOfPercentEncode(s[1..]);
      assert Decoded(e) == [s[0]] + s[1..];
    }
  }
}
