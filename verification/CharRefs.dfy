/** Numeric character references, `&#60;` and `&#x3C;`. PROPPATCH decodes them in the whole body
    before the XML reader sees it, and once more in every text. */
module CharRefs {
  import opened Prelude
  import opened Text

  predicate RefAt(s: string, i: nat) {
    i + 1 < |s| && s[i] == '&' && s[i + 1] == '#'
  }

  ghost predicate HasRef(s: string) {
    exists i :: RefAt(s, i)
  }

  lemma NoRefFromTail(s: string)
    requires |s| >= 2 && !RefAt(s, 0) && !HasRef(s[1..])
    ensures !HasRef(s)
  {
    forall i: nat ensures !RefAt(s, i) {
      if i > 0 {
        assert !RefAt(s[1..], i - 1);
      }
    }
  }

  /** `find("&#")`. */
  function FindRef(s: string): (r: Option<nat>)
    ensures r.Some? ==> RefAt(s, r.value)
    ensures r.Some? <==> HasRef(s)
  {
    if |s| < 2 then None
    else if s[0] == '&' && s[1] == '#' then
      assert RefAt(s, 0);
      Some(0)
    else
      match FindRef(s[1..])
      case None => NoRefFromTail(s); None
      case Some(i) => assert RefAt(s, i + 1); Some(i + 1)
  }

  function DigitValue(c: char, radix: nat): Option<nat> {
    if '0' <= c <= '9' then Some((c - '0') as nat)
    else if radix == 16 && 'a' <= c <= 'f' then Some((c - 'a') as nat + 10)
    else if radix == 16 && 'A' <= c <= 'F' then Some((c - 'A') as nat + 10)
    else None
  }

  function Digits(s: string, radix: nat): Option<nat> {
    if s == "" then Some(0)
    else
      match (Digits(s[..|s| - 1], radix), DigitValue(s[|s| - 1], radix))
      case (Some(high), Some(low)) => Some(high * radix + low)
      case _ => None
  }

  /** `u32::from_str_radix`, which takes a leading `+`; numbers too large for it are not
      characters either. */
  function Number(s: string, radix: nat): Option<nat> {
    var digits := if s != "" && s[0] == '+' then s[1..] else s;
    if digits == "" then None else Digits(digits, radix)
  }

  /** `char::from_u32`: the Unicode scalar values. */
  predicate IsScalar(n: nat) {
    n < 0xD800 || 0xE000 <= n < 0x11_0000
  }

  /** The character a reference stands for; a reference to none disappears. */
  function CharOf(number: string, radix: nat): string {
    match Number(number, radix)
    case Some(n) => if IsScalar(n) then [n as char] else ""
    case None => ""
  }

  predicate IsHex(rest: string) {
    rest != "" && (rest[0] == 'x' || rest[0] == 'X')
  }

  /** After `&#`: the radix and the text from the first digit on. */
  function AfterMark(rest: string): (nat, string) {
    if IsHex(rest) then (16, rest[1..]) else (10, rest)
  }

  function Decode(s: string): string
    decreases |s|
  {
    match FindRef(s)
    case None => s
    case Some(i) => s[..i] + AfterRef(s[i + 2..])
  }

  /** Decoding from behind a `&#` on. */
  function AfterRef(tail: string): string
    decreases |tail|
  {
    var (radix, rest) := AfterMark(tail);
    match SplitOnce(rest, ';')
    case None => rest
    case Some((number, after)) => CharOf(number, radix) + Decode(after)
  }

  /** One turn of the loop, with `done` decoded already. */
  lemma DecodeTurn(done: string, s: string, i: nat)
    requires FindRef(s) == Some(i)
    ensures var (radix, rest) := AfterMark(s[i + 2..]);
            done + Decode(s) ==
            match SplitOnce(rest, ';')
            case None => (done + s[..i]) + rest
            case Some((number, after)) => ((done + s[..i]) + CharOf(number, radix)) + Decode(after)
  {
    Assoc(done, s[..i], AfterRef(s[i + 2..]));
    AfterTurn(done + s[..i], s[i + 2..]);
  }

  lemma AfterTurn(done: string, tail: string)
    ensures var (radix, rest) := AfterMark(tail);
            done + AfterRef(tail) ==
            match SplitOnce(rest, ';')
            case None => done + rest
            case Some((number, after)) => (done + CharOf(number, radix)) + Decode(after)
  {
    var (radix, rest) := AfterMark(tail);
    match SplitOnce(rest, ';')
    case None =>
    case Some((number, after)) => Assoc(done, CharOf(number, radix), Decode(after));
  }

  method DecodeCharRefs(text: string) returns (result: string)
    ensures result == Decode(text)
  {
    result := "";
    var rest := text;
    var pos := FindRef(rest);
    while pos.Some?
      invariant pos == FindRef(rest)
      invariant result + Decode(rest) == Decode(text)
      decreases |rest|
    {
      DecodeTurn(result, rest, pos.value);
      result := result + rest[..pos.value];
      rest := rest[pos.value + 2..];
      var hex := IsHex(rest);
      if hex {
        rest := rest[1..];
      }
      match SplitOnce(rest, ';')
      case None =>
        break;
      case Some((number, after)) =>
        result := result + CharOf(number, if hex then 16 else 10);
        rest := after;
        pos := FindRef(rest);
    }
    result := result + rest;
  }

  // ---- What decoding changes ------------------------------------------------------------------

  /** Decoding shortens every text that holds a reference. */
  lemma {:induction false} DecodeShortens(s: string)
    ensures |Decode(s)| <= |s|
    ensures HasRef(s) ==> |Decode(s)| < |s|
    decreases |s|
  {
    if FindRef(s).Some? {
      var i := FindRef(s).value;
      var rest := AfterMark(s[i + 2..]).1;
      if SplitOnce(rest, ';').Some? {
        DecodeShortens(SplitOnce(rest, ';').value.1);
      }
    }
  }

  /** Decoding leaves a text alone exactly when it holds no reference. */
  lemma DecodeIsIdentityIff(s: string)
    ensures Decode(s) == s <==> !HasRef(s)
  {
    DecodeShortens(s);
  }

  /** Every character written as a decimal reference. */
  function Escape(s: string): string {
    if s == "" then "" else "&#" + (Decimal(s[0] as nat) + [';'] + Escape(s[1..]))
  }

  predicate DecimalDigits(s: string) {
    forall c :: c in s ==> '0' <= c <= '9'
  }

  lemma {:induction false} DigitsOfDecimal(n: nat)
    ensures DecimalDigits(Decimal(n))
    ensures Digits(Decimal(n), 10) == Some(n)
  {
    if n < 10 {
      assert Decimal(n)[..0] == "";
    } else {
      DigitsOfDecimal(n / 10);
      var high := Decimal(n / 10);
      assert Decimal(n)[..|high|] == high;
    }
  }

  lemma DecodeNumber(number: string, rest: string)
    requires number != "" && !IsHex(number) && ';' !in number
    ensures Decode("&#" + (number + [';'] + rest)) == CharOf(number, 10) + Decode(rest)
  {
    var s := "&#" + (number + [';'] + rest);
    assert RefAt(s, 0);
    assert s[2..] == number + [';'] + rest;
    SplitOnceAt(number, ';', rest);
    DecodeTurn("", s, 0);
    assert s[..0] == "" && "" + Decode(s) == Decode(s) && "" + "" + CharOf(number, 10) == CharOf(number, 10);
  }

  lemma DecodeFirst(c: char, rest: string)
    ensures Decode("&#" + (Decimal(c as nat) + [';'] + rest)) == [c] + Decode(rest)
  {
    var number := Decimal(c as nat);
    DigitsOfDecimal(c as nat);
    assert number[0] in number;
    DecodeNumber(number, rest);
  }

  /** Decoding undoes escaping, for every text. */
  lemma {:induction false} DecodeUndoesEscape(s: string)
    ensures Decode(Escape(s)) == s
  {
    if s != "" {
      DecodeFirst(s[0], Escape(s[1..]));
      DecodeUndoesEscape(s[1..]);
    }
  }

  /** Decoding again what has been decoded leaves it alone exactly when it does not itself read like a
      reference. */
  lemma EscapedValueArrivesIff(s: string)
    ensures Decode(Decode(Escape(s))) == s <==> !HasRef(s)
  {
    DecodeUndoesEscape(s);
    DecodeIsIdentityIff(s);
  }

  // ---- Every reference ------------------------------------------------------------------------

  function HexText(n: nat, upper: bool): (r: string)
    ensures r != ""
  {
    if n < 16 then [HexChar(n, upper)] else HexText(n / 16, upper) + [HexChar(n % 16, upper)]
  }

  lemma HexDigitOf(n: nat, upper: bool)
    requires n < 16
    ensures var c := HexChar(n, upper); DigitValue(c, 16) == Some(n) && c != ';' && c != '+'
  {
  }

  lemma {:induction false} DigitsOfHex(n: nat, upper: bool)
    ensures Digits(HexText(n, upper), 16) == Some(n)
    ensures ';' !in HexText(n, upper) && HexText(n, upper)[0] != '+'
  {
    HexDigitOf(n % 16, upper);
    if n < 16 {
      assert HexText(n, upper)[..0] == "";
    } else {
      DigitsOfHex(n / 16, upper);
      var high := HexText(n / 16, upper);
      assert HexText(n, upper)[..|high|] == high;
    }
  }

  /** The character of a number that is one: every code point but the surrogates. */
  function Character(n: nat): string {
    if n <= 0xD7FF || 0xE000 <= n <= 0x10_FFFF then [n as char] else ""
  }

  lemma DecodeTail(tail: string, number: string, radix: nat, after: string)
    requires AfterMark(tail) == (radix, number + [';'] + after) && ';' !in number
    ensures Decode(['&', '#'] + tail) == CharOf(number, radix) + Decode(after)
  {
    var s := ['&', '#'] + tail;
    assert RefAt(s, 0) && s[2..] == tail && s[..0] == "";
    SplitOnceAt(number, ';', after);
  }

  /** `&#` and a decimal number, with or without `+`, up to `;` is the character of that number, and
      nothing if there is none. */
  lemma DecodeDecimal(n: nat, plus: bool, after: string)
    ensures var number := if plus then ['+'] + Decimal(n) else Decimal(n);
            Decode(['&', '#'] + (number + [';'] + after)) == Character(n) + Decode(after)
  {
    var number := if plus then ['+'] + Decimal(n) else Decimal(n);
    DigitsOfDecimal(n);
    assert Decimal(n)[0] in Decimal(n) && number[0] != 'x' && number[0] != 'X';
    assert plus ==> number[1..] == Decimal(n);
    DecodeTail(number + [';'] + after, number, 10, after);
  }

  /** A digit of the radix, ten or sixteen. */
  predicate IsDigit(c: char, radix: nat) {
    '0' <= c <= '9' || (radix == 16 && ('a' <= c <= 'f' || 'A' <= c <= 'F'))
  }

  predicate HasOther(s: string, radix: nat) {
    exists c :: c in s && !IsDigit(c, radix)
  }

  /** No digits at all, or something else among them. */
  predicate NotANumber(s: string, radix: nat) {
    s == "" || s == "+" || HasOther(if s[0] == '+' then s[1..] else s, radix)
  }

  lemma {:induction false} NotAllDigits(s: string, radix: nat)
    requires HasOther(s, radix)
    ensures Digits(s, radix) == None
  {
    var init := s[..|s| - 1];
    assert s == init + [s[|s| - 1]];
    if IsDigit(s[|s| - 1], radix) { NotAllDigits(init, radix); }
  }

  lemma NoCharacter(s: string, radix: nat)
    requires NotANumber(s, radix)
    ensures CharOf(s, radix) == ""
  {
    if s != "" && s != "+" { NotAllDigits(if s[0] == '+' then s[1..] else s, radix); }
  }

  /** A reference to no number disappears. */
  lemma DecodeNoNumber(s: string, hex: bool, mark: char, after: string)
    requires ';' !in s && (mark == 'x' || mark == 'X') && (!hex ==> s == "" || (s[0] != 'x' && s[0] != 'X'))
    requires NotANumber(s, if hex then 16 else 10)
    ensures Decode(['&', '#'] + ((if hex then [mark] else []) + (s + [';'] + after))) == Decode(after)
  {
    NoCharacter(s, if hex then 16 else 10);
    if hex {
      var tail := [mark] + (s + [';'] + after);
      assert tail[1..] == s + [';'] + after;
      DecodeTail(tail, s, 16, after);
    } else {
      assert [] + (s + [';'] + after) == s + [';'] + after;
      DecodeTail(s + [';'] + after, s, 10, after);
    }
  }

  /** The same for hexadecimal numbers, after `x` or `X` and in digits of either case. */
  lemma DecodeHex(n: nat, mark: char, upper: bool, after: string)
    requires mark == 'x' || mark == 'X'
    ensures Decode(['&', '#'] + ([mark] + (HexText(n, upper) + [';'] + after))) == Character(n) + Decode(after)
  {
    var number := HexText(n, upper);
    DigitsOfHex(n, upper);
    var tail := [mark] + (number + [';'] + after);
    assert tail[1..] == number + [';'] + after;
    DecodeTail(tail, number, 16, after);
  }

  // ---- Decoding a text in parts ---------------------------------------------------------------

  /** Every reference that starts in the text, read from the left, has its `;` in it. */
  predicate Closed(s: string)
    decreases |s|
  {
    match FindRef(s)
    case None => true
    case Some(i) =>
      match SplitOnce(AfterMark(s[i + 2..]).1, ';')
      case None => false
      case Some((_, after)) => Closed(after)
  }

  /** No reference starts with the last character of `a` and the first of `b`. */
  predicate Joins(a: string, b: string) {
    !(a != "" && a[|a| - 1] == '&' && b != "" && b[0] == '#')
  }

  lemma {:induction false} FindRefConcat(a: string, b: string)
    requires Joins(a, b)
    ensures FindRef(a + b) ==
            match FindRef(a)
            case Some(i) => Some(i)
            case None =>
              match FindRef(b)
              case Some(j) => Some(|a| + j)
              case None => None
  {
    if a == "" {
      assert a + b == b;
    } else {
      assert (a + b)[1..] == a[1..] + b;
      FindRefConcat(a[1..], b);
    }
  }

  lemma {:induction false} SplitOnceConcat(a: string, c: char, b: string)
    requires SplitOnce(a, c).Some?
    ensures SplitOnce(a + b, c) == Some((SplitOnce(a, c).value.0, SplitOnce(a, c).value.1 + b))
  {
    if a[0] != c {
      assert (a + b)[1..] == a[1..] + b;
      SplitOnceConcat(a[1..], c, b);
    } else {
      assert (a + b)[1..] == a[1..] + b;
    }
  }

  lemma DecodeAfterPlain(a: string, b: string)
    requires FindRef(a) == None && Joins(a, b)
    ensures Decode(a + b) == a + Decode(b)
  {
    FindRefConcat(a, b);
    if FindRef(b).Some? {
      var j := FindRef(b).value;
      SlicesOfConcat(a, b, j);
      DecodeShifted(a, b, j, a + b);
    }
  }

  lemma SlicesOfConcat(a: string, b: string, j: nat)
    requires j + 2 <= |b|
    ensures (a + b)[..|a| + j] == a + b[..j] && (a + b)[|a| + j + 2..] == b[j + 2..]
  {
  }

  lemma DecodeShifted(a: string, b: string, j: nat, whole: string)
    requires FindRef(b) == Some(j) && FindRef(whole) == Some(|a| + j)
    requires whole[..|a| + j] == a + b[..j] && whole[|a| + j + 2..] == b[j + 2..]
    ensures Decode(whole) == a + Decode(b)
  {
    Assoc(a, b[..j], AfterRef(b[j + 2..]));
  }

  /** The same behind a `&#` whose reference is closed. */
  lemma AfterRefConcat(tail: string, b: string)
    requires SplitOnce(AfterMark(tail).1, ';').Some?
    requires var after := SplitOnce(AfterMark(tail).1, ';').value.1; Decode(after + b) == Decode(after) + Decode(b)
    ensures AfterRef(tail + b) == AfterRef(tail) + Decode(b)
  {
    var (radix, rest) := AfterMark(tail);
    var (number, after) := SplitOnce(rest, ';').value;
    AfterMarkConcat(tail, b);
    SplitOnceConcat(rest, ';', b);
    Assoc(CharOf(number, radix), Decode(after), Decode(b));
  }

  lemma AfterMarkConcat(tail: string, b: string)
    requires SplitOnce(AfterMark(tail).1, ';').Some?
    ensures AfterMark(tail + b) == (AfterMark(tail).0, AfterMark(tail).1 + b)
  {
    assert tail != "";
    assert (tail + b)[1..] == tail[1..] + b;
  }

  /** Two parts are decoded apart when the first is closed. */
  lemma {:induction false} DecodeConcat(a: string, b: string)
    requires Closed(a) && Joins(a, b)
    ensures Decode(a + b) == Decode(a) + Decode(b)
    decreases |a|
  {
    match FindRef(a)
    case None => DecodeAfterPlain(a, b);
    case Some(i) =>
      var tail := a[i + 2..];
      var after := SplitOnce(AfterMark(tail).1, ';').value.1;
      JoinsAfter(a, tail, after, b);
      DecodeConcat(after, b);
      AfterRefConcat(tail, b);
      FindRefConcat(a, b);
      SlicesWithin(a, b, i);
      DecodeExtended(a, b, i, a + b);
  }

  lemma SlicesWithin(a: string, b: string, i: nat)
    requires i + 2 <= |a|
    ensures (a + b)[..i] == a[..i] && (a + b)[i + 2..] == a[i + 2..] + b
  {
  }

  lemma DecodeExtended(a: string, b: string, i: nat, whole: string)
    requires FindRef(a) == Some(i) && FindRef(whole) == Some(i)
    requires whole[..i] == a[..i] && whole[i + 2..] == a[i + 2..] + b
    requires AfterRef(a[i + 2..] + b) == AfterRef(a[i + 2..]) + Decode(b)
    ensures Decode(whole) == Decode(a) + Decode(b)
  {
    Assoc(a[..i], AfterRef(a[i + 2..]), Decode(b));
  }

  lemma JoinsAfter(a: string, tail: string, after: string, b: string)
    requires Joins(a, b) && |tail| <= |a| && tail == a[|a| - |tail|..]
    requires SplitOnce(AfterMark(tail).1, ';').Some? && after == SplitOnce(AfterMark(tail).1, ';').value.1
    ensures Joins(after, b) && |after| < |tail|
  {
    assert after != "" ==> after[|after| - 1] == tail[|tail| - 1];
  }

  /** A text without `&` before anything. */
  lemma DecodeAfter(a: string, b: string)
    requires '&' !in a
    ensures Decode(a + b) == a + Decode(b)
  {
    NoRefWithoutAmpersand(a);
    assert Joins(a, b) by { if a != "" { assert a[|a| - 1] in a; } }
    DecodeAfterPlain(a, b);
  }

  lemma NoRefWithoutAmpersand(s: string)
    requires '&' !in s
    ensures !HasRef(s) && Decode(s) == s
  {
    forall i: nat ensures !RefAt(s, i) {
      if i < |s| { assert s[i] in s; }
    }
    DecodeIsIdentityIff(s);
  }

  lemma {:induction false} EscapeIsClosed(s: string)
    ensures Closed(Escape(s))
  {
    if s != "" {
      var (number, rest) := (Decimal(s[0] as nat), Escape(s[1..]));
      DigitsOfDecimal(s[0] as nat);
      assert number[0] in number;
      var e := "&#" + (number + [';'] + rest);
      assert RefAt(e, 0) && e[2..] == number + [';'] + rest;
      SplitOnceAt(number, ';', rest);
      EscapeIsClosed(s[1..]);
    }
  }
}
