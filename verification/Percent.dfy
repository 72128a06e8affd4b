/** Percent-encoding (section 2.1 of RFC 3986) of names into hrefs, and its decoding. A text is given
    by its UTF-8 bytes, one character each. */
module Percent {
  import opened Prelude
  import opened Paths
  import opened Text

  predicate Unreserved(b: byte) {
    || 0x30 <= b <= 0x39 || 0x41 <= b <= 0x5A || 0x61 <= b <= 0x7A
    || b == SLASH || b == 0x2D || b == 0x5F || b == DOT || b == 0x7E
  }

  function HexDigit(n: nat): char
    requires n < 16
  {
    if n < 10 then '0' + n as char else 'A' + (n - 10) as char
  }

  function EncodeByte(b: byte): (r: string)
    ensures r != "" && (b != SLASH ==> r[|r| - 1] != '/')
  {
    if Unreserved(b) then [b as char] else ['%', HexDigit(b / 16), HexDigit(b % 16)]
  }

  /** `utf8_percent_encode` with the href set. */
  function Encode(n: seq<byte>): string {
    if n == [] then "" else EncodeByte(n[0]) + Encode(n[1..])
  }

  function HexValue(c: char): Option<nat> {
    if '0' <= c <= '9' then Some((c - '0') as int)
    else if 'A' <= c <= 'F' then Some((c - 'A') as int + 10)
    else if 'a' <= c <= 'f' then Some((c - 'a') as int + 10)
    else None
  }

  predicate StartsEscape(s: string) {
    |s| >= 3 && s[0] == '%' && HexValue(s[1]).Some? && HexValue(s[2]).Some?
  }

  /** Percent-decoding of ASCII text (section 2.1 of RFC 3986): an incomplete escape stands for
      itself. */
  function Decode(s: string): seq<byte> {
    if s == "" then []
    else if StartsEscape(s) then
      [(HexValue(s[1]).value * 16 + HexValue(s[2]).value) % 256] + Decode(s[3..])
    else [s[0] as int % 256] + Decode(s[1..])
  }

  lemma HexRoundTrip(n: nat)
    requires n < 16
    ensures HexValue(HexDigit(n)) == Some(n)
  {
  }

  lemma DecodeEscape(h: char, l: char, rest: string)
    requires HexValue(h).Some? && HexValue(l).Some?
    ensures Decode(['%', h, l] + rest) == [(HexValue(h).value * 16 + HexValue(l).value) % 256] + Decode(rest)
  {
    var s := ['%', h, l] + rest;
    assert s[3..] == rest;
  }

  lemma DecodePlain(c: char, rest: string)
    requires c != '%'
    ensures Decode([c] + rest) == [c as int % 256] + Decode(rest)
  {
    var s := [c] + rest;
    assert s[1..] == rest;
  }

  lemma DecodeByte(b: byte, rest: string)
    ensures Decode(EncodeByte(b) + rest) == [b] + Decode(rest)
  {
    if Unreserved(b) {
      DecodePlain(b as char, rest);
    } else {
      HexRoundTrip(b / 16);
      HexRoundTrip(b % 16);
      DecodeEscape(HexDigit(b / 16), HexDigit(b % 16), rest);
    }
  }

  lemma {:induction false} DecodeName(n: seq<byte>, rest: string)
    ensures Decode(Encode(n) + rest) == n + Decode(rest)
  {
    if n == [] {
      assert Encode(n) + rest == rest;
    } else {
      var first, others := EncodeByte(n[0]), Encode(n[1..]);
      assert Encode(n) + rest == first + (others + rest);
      DecodeByte(n[0], others + rest);
      DecodeName(n[1..], rest);
      FirstOf(n, Decode(rest));
    }
  }

  lemma FirstOf(n: seq<byte>, rest: seq<byte>)
    requires n != []
    ensures [n[0]] + (n[1..] + rest) == n + rest
  {
  }

  predicate EndsInSlash(s: string) {
    s != "" && s[|s| - 1] == '/'
  }

  /** No escape reaches across a slash. */
  lemma {:induction false} DecodeAfterSlash(a: string, b: string)
    requires EndsInSlash(a)
    ensures Decode(a + b) == Decode(a) + Decode(b)
  {
    if StartsEscape(a) {
      var h, l, rest := a[1], a[2], a[3..];
      assert HexValue('/').None?;
      assert a == ['%', h, l] + rest && a + b == ['%', h, l] + (rest + b);
      DecodeEscape(h, l, rest);
      DecodeEscape(h, l, rest + b);
      DecodeAfterSlash(rest, b);
    } else {
      NoEscapeBefore(a, b);
      assert (a + b)[1..] == a[1..] + b;
      if |a| > 1 {
        DecodeAfterSlash(a[1..], b);
      } else {
        assert a[1..] + b == b;
      }
    }
  }

  lemma NoEscapeBefore(a: string, b: string)
    requires EndsInSlash(a) && !StartsEscape(a)
    ensures !StartsEscape(a + b)
  {
    if |a| == 2 { assert (a + b)[1] == '/'; }
  }

  /** A slash decodes to itself wherever it stands, and ends an escape that is not complete. */
  lemma {:induction false} DecodeSlashEnd(a: string)
    ensures Decode(a + "/") == Decode(a) + [SLASH]
  {
    if a == "" {
      DecodePlain('/', "");
      assert ['/'] + "" == "/" && "" + "/" == "/";
    } else if StartsEscape(a) {
      var (h, l, rest) := (a[1], a[2], a[3..]);
      assert a == ['%', h, l] + rest && a + "/" == ['%', h, l] + (rest + "/");
      DecodeEscape(h, l, rest);
      DecodeEscape(h, l, rest + "/");
      DecodeSlashEnd(rest);
    } else {
      NoEscapeWithSlash(a);
      assert (a + "/")[1..] == a[1..] + "/";
      DecodeSlashEnd(a[1..]);
    }
  }

  lemma NoEscapeWithSlash(a: string)
    requires a != "" && !StartsEscape(a)
    ensures !StartsEscape(a + "/")
  {
    if |a| == 2 { assert (a + "/")[2] == '/'; }
    if |a| == 1 { assert (a + "/")[1] == '/'; }
  }

  // ---- What is escaped, and how --------------------------------------------------------------

  /** Letters, digits and `-_.~/`. */
  predicate IsPlainChar(c: char) {
    'A' <= c <= 'Z' || 'a' <= c <= 'z' || '0' <= c <= '9' || c in {'-', '_', '.', '~', '/'}
  }

  /** They stand for themselves in an href; every other byte is `%` and its two upper-case digits. */
  lemma EncodeIff(b: byte)
    ensures Encode([b]) == if IsPlainChar(b as char) then [b as char] else ['%', HexChar(b / 16, true), HexChar(b % 16, true)]
  {
    assert [b][1..] == [];
    assert EncodeByte(b) + "" == EncodeByte(b);
  }

  lemma ValueOfHexChar(n: nat, upper: bool)
    requires n < 16
    ensures HexValue(HexChar(n, upper)) == Some(n)
  {
  }

  /** `%` and two hexadecimal digits, each of either case, are one byte. */
  lemma DecodeDigits(i: nat, upper: bool, j: nat, lower: bool, rest: string)
    requires i < 16 && j < 16
    ensures Decode(['%', HexChar(i, upper), HexChar(j, lower)] + rest) == [16 * i + j] + Decode(rest)
  {
    ValueOfHexChar(i, upper);
    ValueOfHexChar(j, lower);
    OneByte(HexChar(i, upper), i, HexChar(j, lower), j, rest);
  }

  lemma OneByte(h: char, i: nat, l: char, j: nat, rest: string)
    requires HexValue(h) == Some(i) && HexValue(l) == Some(j) && i < 16 && j < 16
    ensures Decode(['%', h, l] + rest) == [16 * i + j] + Decode(rest)
  {
    DecodeEscape(h, l, rest);
  }

  predicate IsHexChar(c: char) {
    exists i, upper :: 0 <= i < 16 && c == HexChar(i, upper)
  }

  lemma IsHexIff(c: char)
    ensures HexValue(c).Some? <==> IsHexChar(c)
  {
    if HexValue(c).Some? {
      assert c == HexChar(HexValue(c).value, true) || c == HexChar(HexValue(c).value, false);
    }
  }

  /** A `%` that is not followed by two of them stands for itself. */
  lemma DecodeStrayPercent(s: string)
    requires s != "" && s[0] == '%' && (|s| < 3 || !IsHexChar(s[1]) || !IsHexChar(s[2]))
    ensures Decode(s) == ['%' as int] + Decode(s[1..])
  {
    if |s| >= 3 {
      IsHexIff(s[1]);
      IsHexIff(s[2]);
    }
    NoEscape(s);
  }

  lemma NoEscape(s: string)
    requires s != "" && !StartsEscape(s)
    ensures Decode(s) == [s[0] as int % 256] + Decode(s[1..])
  {
  }
}
