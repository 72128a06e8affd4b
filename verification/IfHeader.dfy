/** The `If` header (section 10.4 of RFC 4918): its values, its grammar over the remaining
    input, the byte-cursor parser that the server runs, and the law that the parser inverts
    rendering. The header value is text whose delimiters are all ASCII, so the conversion of a
    bracketed slice back to text never fails. */
module IfHeader {
  import opened Prelude

  datatype IfCondition =
    | StateToken(token: string)
    | Not(inner: IfCondition)

  datatype IfList = IfList(resourceTag: Option<string>, conditions: seq<IfCondition>)

  predicate IsWhitespace(c: char) {
    c == ' ' || c == '\t' || c == '\n' || c == '\r' || c as int == 0x0C
  }

  // ---- The grammar, as functions from the remaining input to a value and the rest ----

  function TrimWs(s: string): (r: string)
    ensures |r| <= |s|
    ensures r == "" || !IsWhitespace(r[0])
  {
    if s != "" && IsWhitespace(s[0]) then TrimWs(s[1..]) else s
  }

  /** The text before the first `>` and the text after it. */
  function UntilClose(s: string): (r: Option<(string, string)>)
    ensures r.Some? ==> '>' !in r.value.0 && s == r.value.0 + ">" + r.value.1
    ensures r.None? ==> '>' !in s
  {
    if s == "" then None
    else if s[0] == '>' then Some(("", s[1..]))
    else match UntilClose(s[1..])
      case None => None
      case Some((text, rest)) => Some(([s[0]] + text, rest))
  }

  /** An optional `Not`, which counts only when a separator follows it. */
  function StripNot(s: string): (r: (bool, string))
    ensures |r.1| <= |s|
  {
    if "Not" <= s && (|s| == 3 || IsWhitespace(s[3]) || s[3] == '<' || s[3] == '(')
    then (true, TrimWs(s[3..]))
    else (false, s)
  }

  /** What a list body starts with: its end, a character to skip, or a condition. */
  datatype Item =
    | End(rest: string)
    | Skipped(rest: string)
    | Found(condition: IfCondition, rest: string)

  /** The item that starts after an optional `Not`. */
  function ItemAfterNot(negated: bool, s: string): (r: Item)
    ensures |r.rest| <= |s|
    ensures !r.End? && s != "" ==> |r.rest| < |s|
  {
    if s == "" then Skipped("")
    else if s[0] != '<' then Skipped(s[1..])
    else match UntilClose(s[1..])
      case None => End(s)
      case Some((token, rest)) =>
        Found(if negated then Not(StateToken(token)) else StateToken(token), rest)
  }

  function NextItem(s: string): (r: Item)
    ensures |r.rest| <= |s|
    ensures !r.End? && s != "" ==> |r.rest| < |s|
    ensures s == "" ==> r.End?
  {
    var s1 := TrimWs(s);
    if s1 == "" then End("")
    else if s1[0] == ')' then End(s1[1..])
    else
      var (negated, s2) := StripNot(s1);
      ItemAfterNot(negated, s2)
  }

  /** The conditions of a list whose `(` has been read, added to `acc`, and the input after
      its `)`. */
  function ListBody(acc: seq<IfCondition>, s: string): (r: (seq<IfCondition>, string))
    ensures |r.1| <= |s|
    decreases |s|
  {
    match NextItem(s)
    case End(rest) => (acc, rest)
    case Skipped(rest) => ListBody(acc, rest)
    case Found(condition, rest) => ListBody(acc + [condition], rest)
  }

  predicate Opens(s: string) {
    s != "" && s[0] == '('
  }

  /** The run of lists that follow one resource tag, added to `acc`. */
  function TaggedRun(acc: seq<IfList>, tag: string, s: string): (r: (seq<IfList>, string))
    ensures |r.1| <= |s|
    ensures Opens(s) ==> |r.1| < |s|
    decreases |s|
  {
    if Opens(s) then
      var (conditions, rest) := ListBody([], s[1..]);
      TaggedRun(acc + [IfList(Some(tag), conditions)], tag, TrimWs(rest))
    else (acc, s)
  }

  /** What the header says from a character that is not blank: more lists and the rest of the
      input, or the end. */
  function Entry(acc: seq<IfList>, s: string): (r: (seq<IfList>, string))
    requires s != ""
    ensures |r.1| < |s|
  {
    if s[0] == '<' then
      match UntilClose(s[1..])
      case None => (acc, "")
      case Some((tag, rest)) =>
        var next := TrimWs(rest);
        if Opens(next) then TaggedRun(acc, tag, next)
        else (acc + [IfList(None, [StateToken(tag)])], next)
    else if s[0] == '(' then
      var (conditions, rest) := ListBody([], s[1..]);
      (acc + [IfList(None, conditions)], TrimWs(rest))
    else (acc, s[1..])
  }

  function Lists(acc: seq<IfList>, s: string): seq<IfList>
    decreases |s|
  {
    var s1 := TrimWs(s);
    if s1 == "" then acc
    else
      var (more, rest) := Entry(acc, s1);
      Lists(more, rest)
  }

  /** The meaning of a header value. */
  function Parse(s: string): seq<IfList> {
    Lists([], s)
  }

  // ---- The cursor parser ------------------------------------------------------------

  /** The input that a cursor has not consumed; a cursor may stand one past the end. */
  function Rest(b: string, p: nat): string {
    if p >= |b| then "" else b[p..]
  }

  method SkipWs(b: string, start: nat) returns (p: nat)
    ensures start <= p && (start <= |b| ==> p <= |b|)
    ensures start > |b| ==> p == start
    ensures Rest(b, p) == TrimWs(Rest(b, start))
  {
    p := start;
    while p < |b| && IsWhitespace(b[p])
      invariant start <= p && (start <= |b| ==> p <= |b|)
      invariant start > |b| ==> p == start
      invariant TrimWs(Rest(b, start)) == TrimWs(Rest(b, p))
    {
      assert b[p..][1..] == b[p + 1..];
      assert b[|b|..] == "";
      p := p + 1;
    }
  }

  method ReadAngleBracket(b: string, p: nat) returns (r: Option<(string, nat)>)
    requires p < |b| && b[p] == '<'
    ensures r.Some? ==> p < r.value.1 <= |b|
    ensures UntilClose(b[p + 1..]) ==
            if r.None? then None else Some((r.value.0, Rest(b, r.value.1)))
  {
    var start := p + 1;
    var end := start;
    while end < |b| && b[end] != '>'
      invariant start <= end <= |b|
      invariant forall k :: start <= k < end ==> b[k] != '>'
    {
      end := end + 1;
    }
    UntilCloseAt(b, start, end);
    if end == |b| { return None; }
    r := Some((b[start..end], end + 1));
  }

  /** The first `>` at or after `start`, or the end of the input, decides `UntilClose`. */
  lemma UntilCloseAt(b: string, start: nat, end: nat)
    requires start <= end <= |b|
    requires forall k :: start <= k < end ==> b[k] != '>'
    requires end < |b| ==> b[end] == '>'
    ensures UntilClose(b[start..]) ==
            if end == |b| then None else Some((b[start..end], Rest(b, end + 1)))
  {
    if end < |b| {
      assert b[start..] == b[start..end] + (">" + Rest(b, end + 1));
      UntilCloseOf(b[start..end], Rest(b, end + 1));
    } else {
      assert '>' !in b[start..];
    }
  }

  method ReadNot(b: string, start: nat) returns (negated: bool, p: nat)
    requires start < |b|
    ensures start <= p <= |b|
    ensures (negated, Rest(b, p)) == StripNot(b[start..])
  {
    negated, p := false, start;
    if "Not" <= b[start..] {
      var after := start + 3;
      assert b[start..][3..] == b[after..];
      if after >= |b| || IsWhitespace(b[after]) || b[after] == '<' || b[after] == '(' {
        negated := true;
        p := SkipWs(b, after);
      }
    }
  }

  /** How a cursor move is described by an item. */
  function ItemOf(b: string, found: Option<IfCondition>, p: nat, stop: bool): Item {
    if stop then End(Rest(b, p))
    else if found.None? then Skipped(Rest(b, p))
    else Found(found.value, Rest(b, p))
  }

  method ReadAfterNot(b: string, start: nat, negated: bool)
    returns (found: Option<IfCondition>, p: nat, stop: bool)
    requires start <= |b|
    ensures start <= p <= |b| + 1
    ensures !stop ==> start < p
    ensures ItemOf(b, found, p, stop) == ItemAfterNot(negated, Rest(b, start))
  {
    found, p, stop := None, start + 1, false;
    if start < |b| {
      assert b[start..][1..] == Rest(b, start + 1);
      if b[start] == '<' {
        var bracket := ReadAngleBracket(b, start);
        if bracket.None? { return None, start, true; }
        var condition := StateToken(bracket.value.0);
        found := Some(if negated then Not(condition) else condition);
        p := bracket.value.1;
      }
    }
  }

  /** One turn of the loop of `read_list`. */
  method ReadItem(b: string, start: nat) returns (found: Option<IfCondition>, p: nat, stop: bool)
    requires start <= |b| + 1
    ensures start <= p <= |b| + 1
    ensures !stop ==> start < p
    ensures ItemOf(b, found, p, stop) == NextItem(Rest(b, start))
  {
    found, stop := None, true;
    p := SkipWs(b, start);
    if p < |b| && b[p] == ')' {
      assert b[p..][1..] == Rest(b, p + 1);
      p := p + 1;
    } else if p < |b| {
      var negated;
      negated, p := ReadNot(b, p);
      found, p, stop := ReadAfterNot(b, p, negated);
    }
  }

  /** `read_list`: the cursor stops at most one past the end of the input. */
  method ReadList(b: string, start: nat) returns (conditions: seq<IfCondition>, p: nat)
    requires start < |b| && b[start] == '('
    ensures start < p <= |b| + 1
    ensures (conditions, Rest(b, p)) == ListBody([], b[start + 1..])
  {
    p := start + 1;
    conditions := [];
    ghost var whole := ListBody([], Rest(b, p));
    assert Rest(b, p) == b[start + 1..];
    while true
      invariant start < p <= |b| + 1
      invariant whole == ListBody(conditions, Rest(b, p))
      decreases |b| + 1 - p
    {
      var found, next, stop := ReadItem(b, p);
      p := next;
      if stop { return; }
      if found.Some? { conditions := conditions + [found.value]; }
    }
  }

  /** The inner loop of `parse_if_header`: every list that follows one tag carries it. */
  method ReadTaggedRun(b: string, start: nat, tag: string, before: seq<IfList>)
    returns (lists: seq<IfList>, p: nat)
    requires start < |b| && b[start] == '('
    ensures start < p <= |b| + 1
    ensures (lists, Rest(b, p)) == TaggedRun(before, tag, b[start..])
  {
    p, lists := start, before;
    ghost var whole := TaggedRun(before, tag, b[start..]);
    while p < |b| && b[p] == '('
      invariant start <= p <= |b| + 1 && (p == start ==> |b| > p && b[p] == '(')
      invariant whole == TaggedRun(lists, tag, Rest(b, p))
      decreases |b| + 1 - p
    {
      assert b[p..][1..] == b[p + 1..];
      var conditions, next := ReadList(b, p);
      p := SkipWs(b, next);
      lists := lists + [IfList(Some(tag), conditions)];
    }
  }

  /** One turn of the outer loop, at a character that is not blank. */
  method ReadEntry(b: string, start: nat, before: seq<IfList>)
    returns (lists: seq<IfList>, pos: nat)
    requires start < |b|
    ensures start < pos <= |b| + 1
    ensures (lists, Rest(b, pos)) == Entry(before, b[start..])
  {
    assert b[start..][1..] == Rest(b, start + 1);
    if b[start] == '<' {
      var bracket := ReadAngleBracket(b, start);
      if bracket.None? { return before, |b|; }
      var tag := bracket.value.0;
      pos := SkipWs(b, bracket.value.1);
      if pos < |b| && b[pos] == '(' {
        lists, pos := ReadTaggedRun(b, pos, tag, before);
      } else {
        lists := before + [IfList(None, [StateToken(tag)])];
      }
    } else if b[start] == '(' {
      var conditions, next := ReadList(b, start);
      pos := SkipWs(b, next);
      lists := before + [IfList(None, conditions)];
    } else {
      lists, pos := before, start + 1;
    }
  }

  /** `parse_if_header`: total on every input, it reads exactly what the grammar says. */
  method ParseIfHeader(header: Option<string>) returns (lists: seq<IfList>)
    ensures lists == if header.None? then [] else Parse(header.value)
  {
    if header.None? { return []; }
    var b := header.value;
    var pos := 0;
    lists := [];
    assert Rest(b, 0) == b;
    while pos < |b|
      invariant pos <= |b| + 1
      invariant Parse(b) == Lists(lists, Rest(b, pos))
      decreases |b| + 1 - pos
    {
      pos := SkipWs(b, pos);
      if pos >= |b| { return; }
      lists, pos := ReadEntry(b, pos, lists);
    }
  }

  // ---- Rendering, and what parsing a rendering gives --------------------------------

  /** Space, tab, line feed, carriage return and form feed. */
  predicate Blank(w: string) {
    forall c :: c in w ==> c in {' ', '\t', '\n', '\r', 12 as char}
  }

  /** A token or a once-negated token, neither holding a `>`. */
  predicate Simple(c: IfCondition) {
    match c
    case StateToken(t) => '>' !in t
    case Not(StateToken(t)) => '>' !in t
    case Not(Not(_)) => false
  }

  /** What stands in a list: a condition, or an entity tag, which the server passes over. */
  datatype Part = Condition(condition: IfCondition) | EntityTag(text: string)

  /** The end of an entity tag. */
  predicate TagEnd(text: string) {
    text != "" && text[|text| - 1] == ']' && '<' !in text && ')' !in text
  }

  predicate PartOk(p: Part) {
    match p
    case Condition(c) => Simple(c)
    case EntityTag(text) => TagEnd(text)
  }

  /** What stands in a header: a list with its own tag or none, a token without parentheses, or text
      that is neither. */
  datatype Element =
    | List(tag: Option<string>, parts: seq<Part>)
    | Bare(token: string)
    | Junk(text: string)

  predicate ElementOk(e: Element) {
    match e
    case List(tag, parts) => (tag.Some? ==> '>' !in tag.value) && forall p :: p in parts ==> PartOk(p)
    case Bare(token) => '>' !in token
    case Junk(text) => text != "" && !Blank(text[..1]) && '<' !in text && '(' !in text
  }

  predicate Renderable(elements: seq<Element>) {
    forall e :: e in elements ==> ElementOk(e)
  }

  // Each renderer takes the text that follows what it renders; `w` is any blank text.

  function Bracket(text: string, rest: string): string {
    "<" + (text + (">" + rest))
  }

  function RenderCondition(c: IfCondition, w: string, rest: string): string
    requires Simple(c)
  {
    match c
    case StateToken(t) => Bracket(t, rest)
    case Not(StateToken(t)) => "Not" + (w + Bracket(t, rest))
  }

  /** The parts and the closing parenthesis of a list. */
  function RenderBody(parts: seq<Part>, w: string, rest: string): string
    requires forall p :: p in parts ==> PartOk(p)
  {
    if parts == [] then ")" + rest
    else
      assert parts[0] in parts && PartOk(parts[0]);
      var others := w + RenderBody(parts[1..], w, rest);
      match parts[0]
      case Condition(c) => RenderCondition(c, w, others)
      case EntityTag(text) => text + others
  }

  function RenderList(parts: seq<Part>, w: string, rest: string): string
    requires forall p :: p in parts ==> PartOk(p)
  {
    "(" + (w + RenderBody(parts, w, w + rest))
  }

  function Render(elements: seq<Element>, w: string): string
    requires Renderable(elements)
  {
    if elements == [] then ""
    else
      assert elements[0] in elements;
      var rest := Render(elements[1..], w);
      match elements[0]
      case List(None, parts) => RenderList(parts, w, rest)
      case List(Some(tag), parts) => Bracket(tag, w + RenderList(parts, w, rest))
      case Bare(token) => Bracket(token, w + rest)
      case Junk(text) => text + (w + rest)
  }

  function Conditions(parts: seq<Part>): seq<IfCondition> {
    if parts == [] then []
    else (if parts[0].Condition? then [parts[0].condition] else []) + Conditions(parts[1..])
  }

  predicate StartsUntagged(elements: seq<Element>) {
    elements != [] && elements[0].List? && elements[0].tag.None?
  }

  /** What the server makes of a header: a tag covers every untagged list that follows with nothing but
      blanks in between, and a bare token before such a list is its tag. */
  function Inherit(elements: seq<Element>, tag: Option<string>): seq<IfList> {
    if elements == [] then []
    else
      var rest := elements[1..];
      match elements[0]
      case List(own, parts) =>
        var current := if own.Some? then own else tag;
        [IfList(current, Conditions(parts))] + Inherit(rest, current)
      case Bare(token) =>
        if StartsUntagged(rest) then Inherit(rest, Some(token))
        else [IfList(None, [StateToken(token)])] + Inherit(rest, None)
      case Junk(_) => Inherit(rest, None)
  }

  /** Every element by itself. */
  function Alone(elements: seq<Element>): seq<IfList> {
    if elements == [] then []
    else
      (match elements[0]
       case List(own, parts) => [IfList(own, Conditions(parts))]
       case Bare(token) => [IfList(None, [StateToken(token)])]
       case Junk(_) => [])
      + Alone(elements[1..])
  }

  /** Something that can pass for the tag of the next list. */
  predicate Tags(e: Element) {
    e.Bare? || (e.List? && e.tag.Some?)
  }

  predicate UntaggedStandFree(elements: seq<Element>) {
    forall i :: 0 < i < |elements| && Tags(elements[i - 1]) ==> !(elements[i].List? && elements[i].tag.None?)
  }

  lemma {:induction false} TrimBlank(w: string, s: string)
    requires Blank(w)
    ensures TrimWs(w + s) == TrimWs(s)
  {
    if w == "" {
      assert w + s == s;
    } else {
      assert w[0] in w && forall c :: c in w[1..] ==> c in w;
      assert (w + s)[1..] == w[1..] + s;
      TrimBlank(w[1..], s);
    }
  }

  lemma {:induction false} UntilCloseOf(text: string, rest: string)
    requires '>' !in text
    ensures UntilClose(text + (">" + rest)) == Some((text, rest))
  {
    var s := text + (">" + rest);
    if text == "" {
      assert s == ">" + rest;
    } else {
      assert s[0] == text[0];
      assert text[0] in text;
      assert s[1..] == text[1..] + (">" + rest);
      UntilCloseOf(text[1..], rest);
      assert [text[0]] + text[1..] == text;
    }
  }

  lemma BracketOf(text: string, rest: string)
    requires '>' !in text
    ensures var s := Bracket(text, rest);
            s[0] == '<' && UntilClose(s[1..]) == Some((text, rest))
  {
    assert Bracket(text, rest)[1..] == text + (">" + rest);
    UntilCloseOf(text, rest);
  }

  /** One rendered condition is read back, leaving the input after it. */
  lemma NextItemOfCondition(c: IfCondition, w: string, rest: string)
    requires Simple(c) && Blank(w)
    ensures NextItem(RenderCondition(c, w, rest)) == Found(c, rest)
  {
    var s := RenderCondition(c, w, rest);
    match c
    case StateToken(t) =>
      BracketOf(t, rest);
      assert StripNot(s) == (false, s);
    case Not(StateToken(t)) =>
      var bracket := Bracket(t, rest);
      assert s[..3] == "Not" && s[3..] == w + bracket;
      BracketOf(t, rest);
      TrimBlank(w, bracket);
      assert IsWhitespace(s[3]) || s[3] == '<' by {
        assert s[3] == (w + bracket)[0];
        if w != "" { assert w[0] in w; }
      }
      assert StripNot(s) == (true, bracket);
  }

  // ---- Entity tags are passed over ---------------------------------------------------

  lemma TagEndOf(text: string, k: nat)
    requires TagEnd(text) && k < |text|
    ensures TagEnd(text[k..])
  {
    assert forall c :: c in text[k..] ==> c in text;
  }

  lemma {:induction false} TrimTag(text: string, rest: string) returns (k: nat)
    requires TagEnd(text)
    ensures k < |text| && TrimWs(text + rest) == text[k..] + rest && !IsWhitespace(text[k])
  {
    if IsWhitespace(text[0]) {
      TagEndOf(text, 1);
      assert (text + rest)[1..] == text[1..] + rest;
      k := TrimTag(text[1..], rest);
      k := k + 1;
    } else {
      k := 0;
      assert text[0..] == text;
    }
  }

  /** One step into an entity tag: at least one character of it is passed over, and `Not` in it has no
      effect. */
  lemma SkipIntoTag(text: string, rest: string) returns (k: nat)
    requires TagEnd(text)
    ensures 0 < k <= |text| && NextItem(text + rest) == Skipped(text[k..] + rest)
  {
    var i := TrimTag(text, rest);
    TagEndOf(text, i);
    var inner := text[i..];
    var j := SkipIntoTrimmed(inner, rest);
    k := i + j;
    assert inner[j..] == text[k..];
  }

  lemma SkipIntoTrimmed(inner: string, rest: string) returns (k: nat)
    requires TagEnd(inner) && !IsWhitespace(inner[0])
    ensures 0 < k <= |inner| && NextItem(inner + rest) == Skipped(inner[k..] + rest)
    ensures forall s :: TrimWs(s) == inner + rest ==> NextItem(s) == Skipped(inner[k..] + rest)
  {
    assert inner[0] in inner;
    if "Not" <= inner + rest && IsWhitespaceOrOpen(inner + rest) {
      NotWithin(inner, rest);
      TagEndOf(inner, 3);
      assert (inner + rest)[3..] == inner[3..] + rest;
      var j := TrimTag(inner[3..], rest);
      TagEndOf(inner, 3 + j);
      assert inner[3..][j..] == inner[3 + j..];
      SkipOne(inner[3 + j..], rest);
      k := 3 + j + 1;
      assert inner[3 + j..][1..] == inner[k..];
    } else {
      SkipOne(inner, rest);
      k := 1;
    }
  }

  /** The test that lets `Not` negate. */
  predicate IsWhitespaceOrOpen(s: string) {
    |s| == 3 || (|s| > 3 && (IsWhitespace(s[3]) || s[3] == '<' || s[3] == '('))
  }

  lemma NotWithin(inner: string, rest: string)
    requires TagEnd(inner) && "Not" <= inner + rest
    ensures |inner| > 3
  {
    var s := inner + rest;
    assert s[0] == 'N' && s[1] == 'o' && s[2] == 't';
    assert s[|inner| - 1] == ']';
  }

  lemma SkipOne(text: string, rest: string)
    requires TagEnd(text)
    ensures forall negated :: ItemAfterNot(negated, text + rest) == Skipped(text[1..] + rest)
  {
    assert text[0] in text;
    assert (text + rest)[1..] == text[1..] + rest;
  }

  lemma {:induction false} ListBodyPassesTag(acc: seq<IfCondition>, text: string, rest: string)
    requires TagEnd(text)
    ensures ListBody(acc, text + rest) == ListBody(acc, rest)
    decreases |text|
  {
    var k := SkipIntoTag(text, rest);
    if k < |text| {
      TagEndOf(text, k);
      ListBodyPassesTag(acc, text[k..], rest);
    } else {
      assert text[k..] + rest == rest;
    }
  }

  lemma {:induction false} ListBodyOfRender(acc: seq<IfCondition>, parts: seq<Part>, w: string, rest: string)
    requires (forall p :: p in parts ==> PartOk(p)) && Blank(w)
    ensures ListBody(acc, w + RenderBody(parts, w, rest)) == (acc + Conditions(parts), rest)
    decreases parts
  {
    var s := RenderBody(parts, w, rest);
    TrimBlank(w, s);
    assert NextItem(w + s) == NextItem(s);
    assert ListBody(acc, w + s) == ListBody(acc, s);
    if parts == [] {
      assert s[1..] == rest;
      assert acc + Conditions(parts) == acc;
    } else {
      forall p | p in parts[1..] ensures PartOk(p) { assert p in parts; }
      assert parts[0] in parts && PartOk(parts[0]);
      var others := w + RenderBody(parts[1..], w, rest);
      var found := if parts[0].Condition? then [parts[0].condition] else [];
      PartIsRead(acc, parts[0], found, w, others);
      ListBodyOfRender(acc + found, parts[1..], w, rest);
      Assoc(acc, found, Conditions(parts[1..]));
    }
  }

  lemma PartIsRead(acc: seq<IfCondition>, p: Part, found: seq<IfCondition>, w: string, others: string)
    requires PartOk(p) && Blank(w) && found == if p.Condition? then [p.condition] else []
    ensures ListBody(acc, if p.Condition? then RenderCondition(p.condition, w, others) else p.text + others) ==
            ListBody(acc + found, others)
  {
    match p
    case Condition(c) => NextItemOfCondition(c, w, others);
    case EntityTag(text) =>
      ListBodyPassesTag(acc, text, others);
      assert acc + found == acc;
  }

  // ---- The elements of a header -------------------------------------------------------

  lemma RestIsRenderable(elements: seq<Element>)
    requires Renderable(elements) && elements != []
    ensures ElementOk(elements[0]) && Renderable(elements[1..])
  {
    forall e | e in elements[1..] ensures ElementOk(e) { assert e in elements; }
  }

  lemma NotBlank(c: char)
    ensures IsWhitespace(c) <==> Blank([c])
  {
    assert Blank([c]) <==> c in {' ', '\t', '\n', '\r', 12 as char} by { assert [c][0] in [c]; }
  }

  lemma RenderHead(elements: seq<Element>, w: string)
    requires Renderable(elements) && Blank(w)
    ensures TrimWs(Render(elements, w)) == Render(elements, w)
    ensures TrimWs(w + Render(elements, w)) == Render(elements, w)
    ensures Opens(Render(elements, w)) <==> StartsUntagged(elements)
  {
    TrimBlank(w, Render(elements, w));
    if elements != [] {
      assert elements[0] in elements;
      if elements[0].Junk? {
        var text := elements[0].text;
        assert text[..1] == [text[0]] && text[0] in text;
        NotBlank(text[0]);
      }
    }
  }

  lemma AfterFirst(c: char, s: string)
    ensures ([c] + s)[0] == c && ([c] + s)[1..] == s
  {
  }

  /** A rendered list is read up to what follows it. */
  lemma BodyIsRead(parts: seq<Part>, others: seq<Element>, w: string)
    requires (forall p :: p in parts ==> PartOk(p)) && Renderable(others) && Blank(w)
    ensures var s := RenderList(parts, w, Render(others, w));
            && Opens(s) && TrimWs(s) == s && TrimWs(w + s) == s
            && ListBody([], s[1..]).0 == Conditions(parts)
            && TrimWs(ListBody([], s[1..]).1) == Render(others, w)
  {
    var rest := w + Render(others, w);
    ListBodyOfRender([], parts, w, rest);
    assert [] + Conditions(parts) == Conditions(parts);
    AfterFirst('(', w + RenderBody(parts, w, rest));
    TrimBlank(w, RenderList(parts, w, Render(others, w)));
    RenderHead(others, w);
  }

  /** Text without `<` and `(` between elements is passed over. */
  lemma {:induction false} ListsPassJunk(acc: seq<IfList>, text: string, rest: string)
    requires '<' !in text && '(' !in text
    ensures Lists(acc, text + rest) == Lists(acc, rest)
    decreases |text|
  {
    if text == "" {
      assert text + rest == rest;
    } else {
      assert text[0] in text;
      assert (text + rest)[1..] == text[1..] + rest;
      ListsPassJunk(acc, text[1..], rest);
      ListsTrimmed(acc, text[1..] + rest);
    }
  }

  lemma ListsTrimmed(acc: seq<IfList>, s: string)
    ensures Lists(acc, TrimWs(s)) == Lists(acc, s)
  {
    TrimTwice(s);
  }

  lemma {:induction false} TrimTwice(s: string)
    ensures TrimWs(TrimWs(s)) == TrimWs(s)
  {
    if s != "" && IsWhitespace(s[0]) { TrimTwice(s[1..]); }
  }

  lemma {:induction false} ListsOfRender(acc: seq<IfList>, elements: seq<Element>, w: string)
    requires Renderable(elements) && Blank(w)
    ensures Lists(acc, Render(elements, w)) == acc + Inherit(elements, None)
    decreases |elements|, 1
  {
    if elements == [] {
      assert acc + [] == acc;
    } else {
      var rest := elements[1..];
      RestIsRenderable(elements);
      RenderHead(elements, w);
      match elements[0]
      case List(None, parts) =>
        BodyIsRead(parts, rest, w);
        ListsOfRender(acc + [IfList(None, Conditions(parts))], rest, w);
        Assoc(acc, [IfList(None, Conditions(parts))], Inherit(rest, None));
      case List(Some(tag), parts) =>
        BracketOf(tag, w + RenderList(parts, w, Render(rest, w)));
        BodyIsRead(parts, rest, w);
        TaggedIsRead(acc, parts, rest, w, tag);
      case Bare(token) =>
        BracketOf(token, w + Render(rest, w));
        RenderHead(rest, w);
        if StartsUntagged(rest) {
          RunOfRender(acc, rest, w, token);
        } else {
          ListsOfRender(acc + [IfList(None, [StateToken(token)])], rest, w);
          Assoc(acc, [IfList(None, [StateToken(token)])], Inherit(rest, None));
        }
      case Junk(text) =>
        ListsPassJunk(acc, text, w + Render(rest, w));
        RenderHead(rest, w);
        ListsTrimmed(acc, w + Render(rest, w));
        ListsOfRender(acc, rest, w);
    }
  }

  /** The header's lists when a run of lists under `tag` comes first. */
  function AfterRun(acc: seq<IfList>, tag: string, s: string): seq<IfList> {
    var (run, rest) := TaggedRun(acc, tag, s);
    Lists(run, rest)
  }

  /** A list under `tag`, and what follows it. */
  lemma {:induction false} TaggedIsRead(acc: seq<IfList>, parts: seq<Part>, others: seq<Element>, w: string, tag: string)
    requires (forall p :: p in parts ==> PartOk(p)) && Renderable(others) && Blank(w)
    ensures AfterRun(acc, tag, RenderList(parts, w, Render(others, w))) ==
            acc + ([IfList(Some(tag), Conditions(parts))] + Inherit(others, Some(tag)))
    decreases |others|, 3
  {
    BodyIsRead(parts, others, w);
    RunOfRender(acc + [IfList(Some(tag), Conditions(parts))], others, w, tag);
    Assoc(acc, [IfList(Some(tag), Conditions(parts))], Inherit(others, Some(tag)));
  }

  lemma {:induction false} RunOfRender(acc: seq<IfList>, elements: seq<Element>, w: string, tag: string)
    requires Renderable(elements) && Blank(w)
    ensures AfterRun(acc, tag, Render(elements, w)) == acc + Inherit(elements, Some(tag))
    decreases |elements|, if StartsUntagged(elements) then 0 else 2
  {
    RenderHead(elements, w);
    if StartsUntagged(elements) {
      RestIsRenderable(elements);
      TaggedIsRead(acc, elements[0].parts, elements[1..], w, tag);
    } else {
      ListsOfRender(acc, elements, w);
      assert Inherit(elements, Some(tag)) == Inherit(elements, None);
    }
  }

  lemma {:induction false} InheritIsIdentity(elements: seq<Element>, tag: Option<string>)
    ensures Inherit(elements, tag) == Alone(elements) <==>
            !(tag.Some? && StartsUntagged(elements)) && UntaggedStandFree(elements)
  {
    if elements != [] {
      var rest := elements[1..];
      StandFreeStep(elements);
      match elements[0]
      case List(own, parts) =>
        var current := if own.Some? then own else tag;
        InheritIsIdentity(rest, current);
        HeadsDiffer(IfList(current, Conditions(parts)), Inherit(rest, current), IfList(own, Conditions(parts)), Alone(rest));
      case Bare(token) =>
        if StartsUntagged(rest) {
          assert Inherit(elements, tag) == Inherit(rest, Some(token));
          assert Inherit(elements, tag)[0].resourceTag == Some(token) && Alone(elements)[0].resourceTag == None;
        } else {
          InheritIsIdentity(rest, None);
          HeadsDiffer(IfList(None, [StateToken(token)]), Inherit(rest, None), IfList(None, [StateToken(token)]), Alone(rest));
        }
      case Junk(_) =>
        InheritIsIdentity(rest, None);
    }
  }

  lemma HeadsDiffer(x: IfList, a: seq<IfList>, y: IfList, b: seq<IfList>)
    ensures [x] + a == [y] + b <==> x == y && a == b
  {
    assert ([x] + a)[0] == x && ([x] + a)[1..] == a;
    assert ([y] + b)[0] == y && ([y] + b)[1..] == b;
  }

  lemma StandFreeStep(elements: seq<Element>)
    requires elements != []
    ensures UntaggedStandFree(elements) <==>
            UntaggedStandFree(elements[1..]) && !(Tags(elements[0]) && StartsUntagged(elements[1..]))
  {
    var rest := elements[1..];
    assert forall i :: 0 <= i < |rest| ==> rest[i] == elements[i + 1];
    if UntaggedStandFree(rest) && !(Tags(elements[0]) && StartsUntagged(rest)) {
      forall i | 0 < i < |elements| && Tags(elements[i - 1]) ensures !(elements[i].List? && elements[i].tag.None?) {
        if i > 1 { assert rest[i - 1] == elements[i] && rest[i - 2] == elements[i - 1]; }
      }
    }
  }

  /** Every header made of lists, bare tokens and other text is read as `Inherit` says: entity tags and
      other text are passed over, and a bare token is a list of its own. It is read element by element
      exactly when no untagged list directly follows a tagged list or a bare token; the all-tagged and
      all-untagged headers of section 10.4.2 of RFC 4918 are instances. */
  lemma ParseInvertsRender(elements: seq<Element>, w: string)
    requires Renderable(elements) && Blank(w)
    ensures Parse(Render(elements, w)) == Inherit(elements, None)
    ensures Parse(Render(elements, w)) == Alone(elements) <==> UntaggedStandFree(elements)
  {
    ListsOfRender([], elements, w);
    assert [] + Inherit(elements, None) == Inherit(elements, None);
    InheritIsIdentity(elements, None);
  }

  /** A header that breaks off inside a token or tag is read up to there. */
  lemma UnclosedBracketEnds(acc: seq<IfList>, text: string)
    requires '>' !in text
    ensures Lists(acc, "<" + text) == acc
  {
    var s := "<" + text;
    assert s[1..] == text && UntilClose(text) == None;
    assert Entry(acc, s) == (acc, "");
  }
}
