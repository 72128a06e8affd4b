/** Text operations that several parts of the server share. */
module Text {
  import opened Prelude

  /** What is before and after the first `c`. */
  function SplitOnce(s: string, c: char): (r: Option<(string, string)>)
    ensures r.Some? ==> s == r.value.0 + [c] + r.value.1 && c !in r.value.0
    ensures r.None? ==> c !in s
  {
    if s == "" then None
    else if s[0] == c then Some(("", s[1..]))
    else
      match SplitOnce(s[1..], c)
      case None => None
      case Some((before, after)) => Some(([s[0]] + before, after))
  }

  lemma {:induction false} SplitOnceAt(a: string, c: char, b: string)
    requires c !in a
    ensures SplitOnce(a + [c] + b, c) == Some((a, b))
  {
    if a == "" {
      assert (a + [c] + b)[1..] == b;
    } else {
      assert (a + [c] + b)[1..] == a[1..] + [c] + b;
      SplitOnceAt(a[1..], c, b);
      assert [a[0]] + a[1..] == a;
    }
  }

  lemma SplitOnceNone(s: string, c: char)
    requires c !in s
    ensures SplitOnce(s, c) == None
  {
  }

  function Digit(n: nat): char
    requires n < 10
  {
    '0' + n as char
  }

  /** The decimal digits of a number. */
  function Decimal(n: nat): (r: string)
    ensures r != ""
  {
    if n < 10 then [Digit(n)] else Decimal(n / 10) + [Digit(n % 10)]
  }

  /** A hexadecimal digit, in upper or lower case. */
  function HexChar(n: nat, upper: bool): char
    requires n < 16
  {
    match n
    case 10 => (if upper then 'A' else 'a')
    case 11 => (if upper then 'B' else 'b')
    case 12 => (if upper then 'C' else 'c')
    case 13 => (if upper then 'D' else 'd')
    case 14 => (if upper then 'E' else 'e')
    case 15 => (if upper then 'F' else 'f')
    case _ => '0' + n as char
  }

  function TrimStart(s: string, blank: char -> bool): (r: string)
    ensures |r| <= |s|
    ensures r == "" || !blank(r[0])
    ensures forall c :: c in r ==> c in s
  {
    if s != "" && blank(s[0]) then TrimStart(s[1..], blank) else s
  }

  function TrimEnd(s: string, blank: char -> bool): (r: string)
    ensures r <= s
    ensures r == "" || !blank(r[|r| - 1])
  {
    if s != "" && blank(s[|s| - 1]) then TrimEnd(s[..|s| - 1], blank) else s
  }

  /** Without the blank characters at both ends. */
  function Trim(s: string, blank: char -> bool): (r: string)
    ensures |r| <= |s|
    ensures |r| == |s| ==> r == s
    ensures forall c :: c in r ==> c in s
  {
    var t := TrimStart(s, blank);
    TrimStartFull(s, blank);
    TrimEnd(t, blank)
  }

  lemma TrimStartFull(s: string, blank: char -> bool)
    ensures |TrimStart(s, blank)| == |s| ==> TrimStart(s, blank) == s
  {
  }
}
