/** The PROPPATCH body as a machine over XML reader events, and which lists of set and remove
    instructions it gives back. */
module PropPatchParser {
  import opened Prelude
  import opened Text
  import C = CharRefs

  // ---- Names ------------------------------------------------------------------------------

  /** A start tag: its qualified name and its attributes, as they are written. */
  datatype Tag = Tag(name: string, attributes: seq<(string, string)>)

  datatype ParseError = MalformedXml | EmptyNamespace | NoActions

  /** The value of the first attribute with this name. */
  function Attribute(attributes: seq<(string, string)>, name: string): Option<string> {
    if attributes == [] then None
    else if attributes[0].0 == name then Some(attributes[0].1)
    else Attribute(attributes[1..], name)
  }

  /** `extract_element_ns`: only declarations on the element itself are looked at. */
  function ElementName(tag: Tag): Result<(string, string), ParseError> {
    match SplitOnce(tag.name, ':')
    case Some((prefix, local)) => (
      match Attribute(tag.attributes, "xmlns:" + prefix)
      case Some(ns) => if ns == "" then Failure(EmptyNamespace) else Success((ns, local))
      case None => Success(("", local))
    )
    case None =>
      match Attribute(tag.attributes, "xmlns")
      case Some(ns) => Success((ns, tag.name))
      case None => Success(("", tag.name))
  }

  function LocalName(name: string): string {
    match SplitOnce(name, ':')
    case Some((_, local)) => local
    case None => name
  }

  function ClarkKey(ns: string, local: string): string {
    if ns == "" then local else "{" + ns + ['}'] + local
  }

  function ParseClark(key: string): Option<(string, string)> {
    if key != "" && key[0] == '{' then SplitOnce(key[1..], '}') else Some(("", key))
  }

  /** The key can be taken apart again. */
  predicate ClarkSafe(ns: string, local: string) {
    '}' !in ns && (ns == "" ==> local == "" || local[0] != '{')
  }

  /** A key gives back its namespace and name exactly when the namespace has no `}` and a name
      without namespace does not start with `{`. */
  lemma ClarkRoundTripIff(ns: string, local: string)
    ensures ParseClark(ClarkKey(ns, local)) == Some((ns, local)) <==> ClarkSafe(ns, local)
  {
    if ns != "" {
      assert ClarkKey(ns, local)[1..] == ns + ['}'] + local;
      if '}' !in ns {
        SplitOnceAt(ns, '}', local);
      }
    }
  }

  // ---- Namespaces in scope ------------------------------------------------------------------

  /** The namespace declaration that applies to a name, the first one in the list. */
  function Declared(attributes: seq<(string, string)>, name: string): Option<string> {
    match SplitOnce(name, ':')
    case Some((prefix, _)) => Attribute(attributes, "xmlns:" + prefix)
    case None => Attribute(attributes, "xmlns")
  }

  /** A prefix cannot be undeclared (section 5 of Namespaces in XML 1.0). */
  predicate DeclaresOk(attributes: seq<(string, string)>) {
    forall a :: a in attributes && "xmlns:" <= a.0 ==> a.1 != ""
  }

  /** The namespace and local name an element has, given the attributes of the elements around it,
      innermost first. */
  function Expanded(tag: Tag, scope: seq<(string, string)>): (string, string) {
    var ns := match Declared(tag.attributes, tag.name)
              case Some(own) => own
              case None =>
                match Declared(scope, tag.name)
                case Some(outer) => outer
                case None => "";
    (ns, LocalName(tag.name))
  }

  /** The element declares its namespace itself, or has none. */
  predicate KeepsNamespace(tag: Tag, scope: seq<(string, string)>) {
    || Declared(tag.attributes, tag.name).Some?
    || Declared(scope, tag.name) == None
    || Declared(scope, tag.name) == Some("")
  }

  lemma {:induction false} AttributeIsThere(attributes: seq<(string, string)>, name: string)
    ensures Attribute(attributes, name).Some? ==> (name, Attribute(attributes, name).value) in attributes
  {
    if attributes != [] && attributes[0].0 != name {
      AttributeIsThere(attributes[1..], name);
    }
  }

  /** Every element is read, with its local name. */
  lemma ElementNameIsRead(tag: Tag)
    requires DeclaresOk(tag.attributes)
    ensures ElementName(tag).Success? && ElementName(tag).value.1 == LocalName(tag.name)
    ensures ElementName(tag).value.0 ==
            match Declared(tag.attributes, tag.name)
            case Some(own) => own
            case None => ""
  {
    match SplitOnce(tag.name, ':')
    case Some((prefix, _)) =>
      AttributeIsThere(tag.attributes, "xmlns:" + prefix);
    case None =>
  }

  /** A prefix that the element declares as empty is an error; an empty default namespace is none. */
  lemma EmptyNamespaceIff(tag: Tag)
    ensures ElementName(tag) == Failure(EmptyNamespace) <==>
            exists prefix, local :: tag.name == prefix + [':'] + local && ':' !in prefix
                                    && Attribute(tag.attributes, "xmlns:" + prefix) == Some("")
    ensures ElementName(tag).Failure? ==> ElementName(tag).error == EmptyNamespace
  {
    match SplitOnce(tag.name, ':')
    case Some((prefix, local)) =>
      forall p, l | tag.name == p + [':'] + l && ':' !in p ensures p == prefix { SplitOnceAt(p, ':', l); }
      assert tag.name == prefix + [':'] + local;
    case None =>
  }

  /** An element is read with the namespace it has exactly when it declares that itself, or has
      none: declarations on the elements around it, of a prefix or of the default, are not seen. */
  lemma ElementNameIsExpandedIff(tag: Tag, scope: seq<(string, string)>)
    requires DeclaresOk(tag.attributes)
    ensures ElementName(tag) == Success(Expanded(tag, scope)) <==> KeepsNamespace(tag, scope)
  {
    ElementNameIsRead(tag);
  }

  // ---- The machine --------------------------------------------------------------------------

  /** What the XML reader delivers. `Ref` is an entity or character reference between texts, `Other`
      a comment or a declaration, `Malformed` an error of the reader. The end of the sequence is the
      end of the document. */
  datatype XmlEvent =
    | Start(tag: Tag)
    | Empty(tag: Tag)
    | Text(text: string)
    | End(name: string)
    | Ref(name: string)
    | CData(text: string)
    | Other
    | Malformed

  /** Set the property to a value, or remove it. */
  datatype Action = Action(key: string, value: Option<string>)

  datatype Machine = Machine(inSet: bool, inRemove: bool, current: Option<string>, actions: seq<Action>)

  const INITIAL := Machine(false, false, None, [])

  function OnStart(m: Machine, ns: string, local: string): Machine {
    if local == "set" then m.(inSet := true)
    else if local == "remove" then m.(inRemove := true)
    else if local == "prop" then m
    else if m.inSet then m.(current := Some(ClarkKey(ns, local)))
    else if m.inRemove then m.(actions := m.actions + [Action(ClarkKey(ns, local), None)])
    else m
  }

  function OnEmpty(m: Machine, ns: string, local: string): Machine {
    if m.inRemove && local != "prop" then m.(actions := m.actions + [Action(ClarkKey(ns, local), None)])
    else if m.inSet && local != "prop" then m.(actions := m.actions + [Action(ClarkKey(ns, local), Some(""))])
    else m
  }

  /** The property that is open takes this value. */
  function TakeValue(m: Machine, value: string): Machine {
    if m.inSet && m.current.Some?
    then m.(current := None, actions := m.actions + [Action(m.current.value, Some(value))])
    else m
  }

  function OnEnd(m: Machine, local: string): Machine {
    if local == "set" then m.(inSet := false)
    else if local == "remove" then m.(inRemove := false)
    else TakeValue(m, "")
  }

  function Next(m: Machine, e: XmlEvent): Result<Machine, ParseError> {
    match e
    case Start(tag) => (
      match ElementName(tag)
      case Success((ns, local)) => Success(OnStart(m, ns, local))
      case Failure(error) => Failure(error)
    )
    case Empty(tag) => (
      match ElementName(tag)
      case Success((ns, local)) => Success(OnEmpty(m, ns, local))
      case Failure(error) => Failure(error)
    )
    case Text(text) => Success(TakeValue(m, C.Decode(text)))
    case End(name) => Success(OnEnd(m, LocalName(name)))
    case Malformed => Failure(MalformedXml)
    case _ => Success(m)
  }

  function Continue(m: Machine, events: seq<XmlEvent>): Result<Machine, ParseError>
    decreases events
  {
    if events == [] then Success(m)
    else
      match Next(m, events[0])
      case Success(next) => Continue(next, events[1..])
      case Failure(error) => Failure(error)
  }

  function Answer(actions: seq<Action>): Result<seq<Action>, ParseError> {
    if actions == [] then Failure(NoActions) else Success(actions)
  }

  function Parse(events: seq<XmlEvent>): Result<seq<Action>, ParseError> {
    match Continue(INITIAL, events)
    case Success(m) => Answer(m.actions)
    case Failure(error) => Failure(error)
  }

  method ParseRequest(events: seq<XmlEvent>) returns (r: Result<seq<Action>, ParseError>)
    ensures r == Parse(events)
  {
    var actions: seq<Action> := [];
    var inSet, inRemove := false, false;
    var current: Option<string> := None;
    var i := 0;
    while i < |events|
      invariant i <= |events|
      invariant Continue(Machine(inSet, inRemove, current, actions), events[i..]) == Continue(INITIAL, events)
    {
      assert events[i..][0] == events[i] && events[i..][1..] == events[i + 1..];
      match events[i] {
        case Start(tag) =>
          var name := ElementName(tag);
          if name.Failure? {
            return Failure(name.error);
          }
          var (ns, local) := name.value;
          if local == "set" {
            inSet := true;
          } else if local == "remove" {
            inRemove := true;
          } else if local == "prop" {
          } else if inSet {
            current := Some(ClarkKey(ns, local));
          } else if inRemove {
            actions := actions + [Action(ClarkKey(ns, local), None)];
          }
        case Empty(tag) =>
          var name := ElementName(tag);
          if name.Failure? {
            return Failure(name.error);
          }
          var (ns, local) := name.value;
          if inRemove && local != "prop" {
            actions := actions + [Action(ClarkKey(ns, local), None)];
          } else if inSet && local != "prop" {
            actions := actions + [Action(ClarkKey(ns, local), Some(""))];
          }
        case Text(text) =>
          if inSet && current.Some? {
            var value := C.DecodeCharRefs(text);
            actions, current := actions + [Action(current.value, Some(value))], None;
          }
        case End(name) =>
          var local := LocalName(name);
          if local == "set" {
            inSet := false;
          } else if local == "remove" {
            inRemove := false;
          } else if inSet && current.Some? {
            actions, current := actions + [Action(current.value, Some(""))], None;
          }
        case Malformed =>
          return Failure(MalformedXml);
        case _ =>
      }
      i := i + 1;
    }
    if actions == [] {
      return Failure(NoActions);
    }
    r := Success(actions);
  }

  lemma {:induction false} ContinueConcat(m: Machine, a: seq<XmlEvent>, b: seq<XmlEvent>)
    ensures Continue(m, a + b) ==
            match Continue(m, a)
            case Success(next) => Continue(next, b)
            case Failure(error) => Failure(error)
    decreases a
  {
    if a == [] {
      assert a + b == b;
    } else {
      assert (a + b)[1..] == a[1..] + b;
      if Next(m, a[0]).Success? {
        ContinueConcat(Next(m, a[0]).value, a[1..], b);
      }
    }
  }

  // ---- The reader on the content of a property ----------------------------------------------

  predicate IsXmlSpace(c: char) {
    c == ' ' || c == '\t' || c == '\r' || c == '\n'
  }

  /** The reader trims every text and delivers none that is blank. */
  function TextEvents(s: string): seq<XmlEvent> {
    var t := Trim(s, IsXmlSpace);
    if t == "" then [] else [Text(t)]
  }

  /** References divide text, and each part is a text of its own; a `&` that starts no reference is
      an error. */
  function Deliver(s: string): seq<XmlEvent>
    decreases |s|
  {
    match SplitOnce(s, '&')
    case None => TextEvents(s)
    case Some((before, after)) =>
      match SplitOnce(after, ';')
      case None => TextEvents(before) + [Malformed]
      case Some((name, rest)) =>
        if '&' in name then TextEvents(before) + [Malformed]
        else TextEvents(before) + ([Ref(name)] + Deliver(rest))
  }

  /** What a client writes between the tags of a property: character data with numeric references, a
      named entity and the text it stands for, a CDATA section, a comment. */
  datatype Piece =
    | Chars(source: string)
    | Entity(name: string, value: string)
    | CharData(text: string)
    | Comment(text: string)

  /** The text the client means. */
  function Meaning(p: Piece): string {
    match p
    case Chars(source) => C.Decode(source)
    case Entity(_, value) => value
    case CharData(text) => text
    case Comment(_) => ""
  }

  /** The piece once numeric references have been decoded, which happens before the reader sees it, in
      the body as a whole. */
  function DecodedPiece(p: Piece): Piece {
    match p
    case Chars(source) => Chars(C.Decode(source))
    case Entity(_, _) => p
    case CharData(text) => CharData(C.Decode(text))
    case Comment(text) => Comment(C.Decode(text))
  }

  /** What the reader delivers for a piece that it reads. */
  function ReadEvents(p: Piece): seq<XmlEvent> {
    match p
    case Chars(source) => Deliver(source)
    case Entity(name, _) => [Ref(name)]
    case CharData(text) => [CData(text)]
    case Comment(_) => [Other]
  }

  function PieceEvents(p: Piece): seq<XmlEvent> {
    ReadEvents(DecodedPiece(p))
  }

  function Meanings(pieces: seq<Piece>): string {
    if pieces == [] then "" else Meaning(pieces[0]) + Meanings(pieces[1..])
  }

  function Delivered(pieces: seq<Piece>): seq<XmlEvent> {
    if pieces == [] then [] else PieceEvents(pieces[0]) + Delivered(pieces[1..])
  }

  datatype Content = Short | Long(pieces: seq<Piece>)

  predicate StandsAt(pattern: string, s: string, i: nat) {
    i + |pattern| <= |s| && s[i..i + |pattern|] == pattern
  }

  ghost predicate Occurs(pattern: string, s: string) {
    exists i :: StandsAt(pattern, s, i)
  }

  /** A piece that is still one when the references in the body have been decoded: none that starts in
      it is left open, and decoding makes no tag and no end of a section or comment. */
  ghost predicate PieceOk(p: Piece) {
    match p
    case Chars(source) => C.Closed(source) && '<' !in Meaning(p)
    case Entity(name, _) => name != "" && name[0] != '#' && '&' !in name && ';' !in name
    case CharData(text) => C.Closed(text) && !Occurs("]]>", C.Decode(text))
    case Comment(text) => C.Closed(text) && !Occurs("-->", C.Decode(text))
  }

  /** Text is one piece up to the next reference, section, comment or tag. */
  ghost predicate ContentOk(content: Content) {
    content.Long? ==>
      var pieces := content.pieces;
      && (forall p :: p in pieces ==> PieceOk(p))
      && (forall i :: 0 < i < |pieces| && pieces[i].Chars? ==> !pieces[i - 1].Chars?)
  }

  /** The value the client means. */
  function ValueOf(content: Content): string {
    match content
    case Short => ""
    case Long(pieces) => Meanings(pieces)
  }

  /** The value the machine takes: the first text. */
  function FirstText(events: seq<XmlEvent>): string {
    if events == [] then ""
    else if events[0].Text? then C.Decode(events[0].text)
    else FirstText(events[1..])
  }

  function StoredValue(content: Content): string {
    match content
    case Short => ""
    case Long(pieces) => FirstText(Delivered(pieces))
  }

  predicate HasText(events: seq<XmlEvent>) {
    exists e :: e in events && e.Text?
  }

  predicate Silent(p: Piece) {
    Meaning(p) == ""
  }

  /** A text the reader delivers as it is. */
  predicate Clean(s: string) {
    '&' !in s && Trim(s, IsXmlSpace) == s
  }

  /** At most one piece of the content says anything, and that is clean text. */
  predicate Arrives(content: Content) {
    content.Long? ==>
      forall p :: p in content.pieces && !Silent(p) ==> p.Chars? && Clean(Meaning(p)) && Alone(content.pieces, p)
  }

  predicate Alone(pieces: seq<Piece>, p: Piece) {
    exists i :: 0 <= i < |pieces| && pieces[i] == p && forall j :: 0 <= j < |pieces| && j != i ==> Silent(pieces[j])
  }

  /** The reader gets through the content. */
  predicate Readable(content: Content) {
    content.Long? ==> Malformed !in Delivered(content.pieces)
  }

  lemma {:induction false} FirstTextConcat(a: seq<XmlEvent>, b: seq<XmlEvent>)
    ensures FirstText(a + b) == if HasText(a) then FirstText(a) else FirstText(b)
  {
    if a == [] {
      assert a + b == b;
    } else {
      assert (a + b)[1..] == a[1..] + b;
      FirstTextConcat(a[1..], b);
      assert a == [a[0]] + a[1..];
    }
  }

  lemma {:induction false} NoTextIsEmpty(events: seq<XmlEvent>)
    ensures !HasText(events) ==> FirstText(events) == ""
  {
    if events != [] {
      assert events == [events[0]] + events[1..];
      NoTextIsEmpty(events[1..]);
    }
  }

  /** One part of a text: delivered as it is exactly when it is clean. */
  lemma TextPart(s: string)
    requires '&' !in s
    ensures HasText(TextEvents(s)) <==> Trim(s, IsXmlSpace) != ""
    ensures FirstText(TextEvents(s)) == Trim(s, IsXmlSpace)
    ensures Clean(s) <==> |FirstText(TextEvents(s))| == |s|
  {
    var t := Trim(s, IsXmlSpace);
    C.NoRefWithoutAmpersand(t);
    if t != "" {
      assert TextEvents(s)[0] == Text(t);
    }
  }

  /** Of a text that holds a `&` something is always lost. */
  lemma {:induction false} DeliverShortens(s: string)
    ensures |FirstText(Deliver(s))| <= |s|
    ensures |FirstText(Deliver(s))| == |s| <==> Clean(s)
    ensures Clean(s) ==> FirstText(Deliver(s)) == s && (s != "" ==> HasText(Deliver(s)))
    decreases |s|
  {
    match SplitOnce(s, '&')
    case None =>
      TextPart(s);
    case Some((before, after)) =>
      assert s[|before|] == '&';
      TextPart(before);
      match SplitOnce(after, ';')
      case None =>
        FirstTextConcat(TextEvents(before), [Malformed]);
      case Some((name, rest)) =>
        FirstTextConcat(TextEvents(before), [Malformed]);
        FirstTextConcat(TextEvents(before), [Ref(name)] + Deliver(rest));
        FirstTextConcat([Ref(name)], Deliver(rest));
        DeliverShortens(rest);
  }

  /** One piece: what it contributes is at most its meaning, and all of it exactly for clean text or
      for nothing. */
  lemma PieceShortens(p: Piece)
    ensures |FirstText(PieceEvents(p))| <= |Meaning(p)|
    ensures |FirstText(PieceEvents(p))| == |Meaning(p)| <==> Silent(p) || (p.Chars? && Clean(Meaning(p)))
    ensures p.Chars? && Clean(Meaning(p)) ==> FirstText(PieceEvents(p)) == Meaning(p)
    ensures Silent(p) ==> !HasText(PieceEvents(p))
    ensures p.Chars? && Clean(Meaning(p)) && !Silent(p) ==> HasText(PieceEvents(p))
  {
    match p
    case Chars(source) =>
      DeliverShortens(C.Decode(source));
    case _ =>
      NoTextIsEmpty(PieceEvents(p));
  }

  predicate AllSilent(pieces: seq<Piece>) {
    forall p :: p in pieces ==> Silent(p)
  }

  lemma {:induction false} SilentMeansNothing(pieces: seq<Piece>)
    ensures Meanings(pieces) == "" <==> AllSilent(pieces)
  {
    if pieces != [] {
      assert forall p :: p in pieces <==> p == pieces[0] || p in pieces[1..];
      SilentMeansNothing(pieces[1..]);
      assert |Meanings(pieces)| == |Meaning(pieces[0])| + |Meanings(pieces[1..])|;
      assert AllSilent(pieces) <==> Silent(pieces[0]) && AllSilent(pieces[1..]);
    }
  }

  /** The same, reading from the left. */
  predicate ArrivesFrom(pieces: seq<Piece>) {
    if pieces == [] then true
    else if Silent(pieces[0]) then ArrivesFrom(pieces[1..])
    else pieces[0].Chars? && Clean(Meaning(pieces[0])) && AllSilent(pieces[1..])
  }

  lemma {:induction false} ArrivesFromLeft(pieces: seq<Piece>)
    ensures ArrivesFrom(pieces) <==> Arrives(Long(pieces))
  {
    if pieces != [] {
      var (p, rest) := (pieces[0], pieces[1..]);
      assert pieces == [p] + rest;
      ArrivesFromLeft(rest);
      if Silent(p) {
        forall q | q in rest && !Silent(q) ensures Alone(rest, q) <==> Alone(pieces, q) {
          AloneInRest(pieces, q);
        }
      } else {
        AloneFirst(pieces);
      }
    }
  }

  lemma AloneInRest(pieces: seq<Piece>, q: Piece)
    requires pieces != [] && Silent(pieces[0]) && q in pieces[1..]
    ensures !Silent(q) ==> (Alone(pieces[1..], q) <==> Alone(pieces, q))
  {
    var rest := pieces[1..];
    if !Silent(q) {
      if Alone(rest, q) {
        var i :| 0 <= i < |rest| && rest[i] == q && forall j :: 0 <= j < |rest| && j != i ==> Silent(rest[j]);
        assert pieces[i + 1] == q;
        assert forall j :: 0 < j < |pieces| && j != i + 1 ==> pieces[j] == rest[j - 1];
      }
      if Alone(pieces, q) {
        var i :| 0 <= i < |pieces| && pieces[i] == q && forall j :: 0 <= j < |pieces| && j != i ==> Silent(pieces[j]);
        assert rest[i - 1] == q;
        assert forall j :: 0 <= j < |rest| ==> rest[j] == pieces[j + 1];
      }
    }
  }

  lemma AloneFirst(pieces: seq<Piece>)
    requires pieces != [] && !Silent(pieces[0])
    ensures Alone(pieces, pieces[0]) <==> AllSilent(pieces[1..])
  {
    var rest := pieces[1..];
    if Alone(pieces, pieces[0]) {
      var i :| 0 <= i < |pieces| && pieces[i] == pieces[0] && forall j :: 0 <= j < |pieces| && j != i ==> Silent(pieces[j]);
      assert i == 0;
      forall q | q in rest ensures Silent(q) {
        var j :| 0 <= j < |rest| && rest[j] == q;
        assert pieces[j + 1] == q;
      }
    }
    if AllSilent(rest) {
      assert forall j :: 0 < j < |pieces| ==> pieces[j] == rest[j - 1] && rest[j - 1] in rest;
    }
  }

  lemma {:induction false} StoredIff(pieces: seq<Piece>)
    ensures |FirstText(Delivered(pieces))| <= |Meanings(pieces)|
    ensures FirstText(Delivered(pieces)) == Meanings(pieces) <==> ArrivesFrom(pieces)
  {
    if pieces != [] {
      var (p, rest) := (pieces[0], pieces[1..]);
      PieceShortens(p);
      StoredIff(rest);
      FirstTextConcat(PieceEvents(p), Delivered(rest));
      SilentMeansNothing(rest);
      NoTextIsEmpty(PieceEvents(p));
      if Silent(p) {
        assert Meanings(pieces) == Meanings(rest);
      } else if HasText(PieceEvents(p)) {
        assert Meanings(rest) == "" ==> Meanings(pieces) == Meaning(p);
      }
    }
  }

  /** The value that is stored is the one the client means exactly when at most one piece of the
      content says anything, and that is text without `&` and without white space at its ends. */
  lemma ValueArrivesIff(content: Content)
    ensures StoredValue(content) == ValueOf(content) <==> Arrives(content)
  {
    if content.Long? {
      StoredIff(content.pieces);
      ArrivesFromLeft(content.pieces);
    }
  }

  /** A client that writes every character of a value as a numeric reference gets it through exactly
      when the value holds no `&` and no white space at its ends: references are decoded before the
      reader sees them. */
  lemma EscapedValueIff(v: string)
    requires '<' !in v
    ensures var content := Long([Chars(C.Escape(v))]);
            && ContentOk(content) && ValueOf(content) == v
            && (StoredValue(content) == v <==> Clean(v)) && (Arrives(content) <==> Clean(v))
  {
    var piece := Chars(C.Escape(v));
    var content := Long([piece]);
    C.DecodeUndoesEscape(v);
    C.EscapeIsClosed(v);
    assert Meaning(piece) == v && PieceOk(piece);
    assert [piece][1..] == [] && Meanings([piece]) == v + Meanings([piece][1..]);
    ValueArrivesIff(content);
    ArrivesFromLeft([piece]);
    assert ArrivesFrom([piece]) <==> Clean(v);
  }

  /** For instance, of `a&amp;b` only `a` is stored. */
  lemma EntityCutsValue()
    ensures var content := Long([Chars("a"), Entity("amp", "&"), Chars("b")]);
            ContentOk(content) && Readable(content) && ValueOf(content) == "a&b" && StoredValue(content) == "a"
  {
    var pieces := [Chars("a"), Entity("amp", "&"), Chars("b")];
    C.NoRefWithoutAmpersand("a");
    C.NoRefWithoutAmpersand("b");
    assert Clean("a") && Clean("b") && PieceOk(pieces[0]) && PieceOk(pieces[1]) && PieceOk(pieces[2]);
    SplitOnceNone("a", '&');
    SplitOnceNone("b", '&');
    assert pieces[1..] == [Entity("amp", "&"), Chars("b")] && pieces[1..][1..] == [Chars("b")] && pieces[1..][1..][1..] == [];
    assert Meanings([Chars("b")]) == "b" && Meanings(pieces[1..]) == "&b";
    assert Delivered([Chars("b")]) == [Text("b")] && Delivered(pieces[1..]) == [Ref("amp"), Text("b")];
    assert Delivered(pieces) == [Text("a"), Ref("amp"), Text("b")];
  }

  // ---- Requests and what their instructions are ----------------------------------------------

  datatype Element = Element(tag: Tag, content: Content)

  /** The elements of one `set` or one `remove`, with the attributes of that element and of its
      `prop`. */
  datatype Block = Block(isSet: bool, attributes: seq<(string, string)>, propAttributes: seq<(string, string)>, elements: seq<Element>)

  function QName(prefix: Option<string>, local: string): string {
    match prefix
    case Some(p) => p + [':'] + local
    case None => local
  }

  function RenderElement(e: Element): seq<XmlEvent> {
    match e.content
    case Short => [Empty(e.tag)]
    case Long(pieces) => [Start(e.tag)] + (Delivered(pieces) + [End(e.tag.name)])
  }

  function RenderElements(elements: seq<Element>): seq<XmlEvent> {
    if elements == [] then [] else RenderElement(elements[0]) + RenderElements(elements[1..])
  }

  function BlockName(b: Block): string {
    if b.isSet then "set" else "remove"
  }

  function RenderBlock(prefix: Option<string>, b: Block): seq<XmlEvent> {
    [Start(Tag(QName(prefix, BlockName(b)), b.attributes))]
    + ([Start(Tag(QName(prefix, "prop"), b.propAttributes))]
       + (RenderElements(b.elements)
          + [End(QName(prefix, "prop")), End(QName(prefix, BlockName(b)))]))
  }

  function RenderBlocks(prefix: Option<string>, blocks: seq<Block>): seq<XmlEvent> {
    if blocks == [] then [] else RenderBlock(prefix, blocks[0]) + RenderBlocks(prefix, blocks[1..])
  }

  /** What the reader delivers for a request: the root with its attributes, and the blocks. `prefix`
      is the one the DAV elements are written with. */
  function Render(prefix: Option<string>, rootAttributes: seq<(string, string)>, blocks: seq<Block>): seq<XmlEvent> {
    [Start(Tag(QName(prefix, "propertyupdate"), rootAttributes))]
    + (RenderBlocks(prefix, blocks) + [End(QName(prefix, "propertyupdate"))])
  }

  /** The declarations around the elements of a block. */
  function ScopeOf(b: Block, rootAttributes: seq<(string, string)>): seq<(string, string)> {
    b.propAttributes + b.attributes + rootAttributes
  }

  datatype Instruction = Instruction(ns: string, local: string, value: Option<string>)

  /** What the client asks for. */
  function Meant(isSet: bool, scope: seq<(string, string)>, e: Element): Instruction {
    var (ns, local) := Expanded(e.tag, scope);
    Instruction(ns, local, if isSet then Some(ValueOf(e.content)) else None)
  }

  function ActionOf(i: Instruction): Action {
    Action(ClarkKey(i.ns, i.local), i.value)
  }

  function BlockInstructions(isSet: bool, scope: seq<(string, string)>, elements: seq<Element>): (r: seq<Instruction>)
    ensures |r| == |elements|
  {
    if elements == [] then []
    else [Meant(isSet, scope, elements[0])] + BlockInstructions(isSet, scope, elements[1..])
  }

  /** The instructions of a request, in document order. */
  function Instructions(rootAttributes: seq<(string, string)>, blocks: seq<Block>): seq<Instruction> {
    if blocks == [] then []
    else BlockInstructions(blocks[0].isSet, ScopeOf(blocks[0], rootAttributes), blocks[0].elements)
         + Instructions(rootAttributes, blocks[1..])
  }

  function Actions(instructions: seq<Instruction>): (r: seq<Action>)
    ensures |r| == |instructions|
    ensures forall i :: 0 <= i < |r| ==> r[i] == ActionOf(instructions[i])
  {
    seq(|instructions|, i requires 0 <= i < |instructions| => ActionOf(instructions[i]))
  }

  /** Names without a reference mark, values without a numeric reference and without quotes. */
  ghost predicate AttributesOk(attributes: seq<(string, string)>) {
    && DeclaresOk(attributes)
    && forall a :: a in attributes ==> '&' !in a.0 && !C.HasRef(a.1) && '\"' !in a.1 && '<' !in a.1
  }

  /** A conforming document, in whose tags there are no numeric references. */
  ghost predicate ElementOk(e: Element) {
    '&' !in e.tag.name && AttributesOk(e.tag.attributes) && ContentOk(e.content)
  }

  ghost predicate BlockOk(b: Block) {
    AttributesOk(b.attributes) && AttributesOk(b.propAttributes) && forall e :: e in b.elements ==> ElementOk(e)
  }

  predicate PrefixOk(prefix: Option<string>) {
    prefix.Some? ==> ':' !in prefix.value && '&' !in prefix.value
  }

  ghost predicate RequestOk(prefix: Option<string>, rootAttributes: seq<(string, string)>, blocks: seq<Block>) {
    PrefixOk(prefix) && AttributesOk(rootAttributes) && forall b :: b in blocks ==> BlockOk(b)
  }

  /** The machine takes `prop` for structure, and `set` and `remove` too when they have content. */
  predicate Recoverable(e: Element) {
    LocalName(e.tag.name) != "prop" &&
    (e.content.Long? ==> LocalName(e.tag.name) != "set" && LocalName(e.tag.name) != "remove")
  }

  /** The instruction of this element comes back as it is meant. */
  predicate Survives(isSet: bool, scope: seq<(string, string)>, e: Element) {
    && Recoverable(e) && KeepsNamespace(e.tag, scope)
    && (if isSet then Arrives(e.content) else Readable(e.content))
  }

  predicate BlockSurvives(b: Block, rootAttributes: seq<(string, string)>) {
    forall e :: e in b.elements ==> Survives(b.isSet, ScopeOf(b, rootAttributes), e)
  }

  // ---- What the machine makes of an element ---------------------------------------------------

  /** The action the machine takes for an element. */
  function Taken(isSet: bool, e: Element): Action
    requires ElementName(e.tag).Success?
  {
    var (ns, local) := ElementName(e.tag).value;
    Action(ClarkKey(ns, local), if isSet then Some(StoredValue(e.content)) else None)
  }

  /** Nothing but text and what the machine ignores. */
  predicate Flat(events: seq<XmlEvent>) {
    forall e :: e in events ==> e.Text? || e.Ref? || e.CData? || e.Other?
  }

  function Push(m: Machine, actions: seq<Action>): Machine {
    m.(actions := m.actions + actions)
  }

  /** Once the value is taken, or where none is wanted, the rest of the content changes nothing. */
  lemma {:induction false} PiecesIgnored(m: Machine, events: seq<XmlEvent>)
    requires Flat(events) && !(m.inSet && m.current.Some?)
    ensures Continue(m, events) == Success(m)
  {
    if events != [] {
      assert events[0] in events;
      FlatRest(events);
      PiecesIgnored(m, events[1..]);
    }
  }

  lemma FlatRest(events: seq<XmlEvent>)
    requires Flat(events) && events != []
    ensures Flat(events[1..])
  {
    forall e | e in events[1..] ensures e.Text? || e.Ref? || e.CData? || e.Other? { assert e in events; }
  }

  /** The content of an open property, and then any end tag but `set` and `remove`, adds it once,
      with its first text. */
  lemma {:induction false} PiecesTaken(m: Machine, events: seq<XmlEvent>, name: string)
    requires Flat(events) && m.inSet && m.current.Some?
    requires LocalName(name) != "set" && LocalName(name) != "remove"
    ensures Continue(m, events + [End(name)]) ==
            Success(Push(m.(current := None), [Action(m.current.value, Some(FirstText(events)))]))
    decreases events
  {
    if events == [] {
      EndAlone(m, name);
      assert events + [End(name)] == [End(name)];
    } else {
      assert events[0] in events;
      FlatRest(events);
      assert (events + [End(name)])[1..] == events[1..] + [End(name)];
      var next := Next(m, events[0]).value;
      if events[0].Text? {
        PiecesIgnored(next, events[1..]);
        ContinueConcat(next, events[1..], [End(name)]);
        EndAlone(next, name);
      } else {
        PiecesTaken(m, events[1..], name);
      }
    }
  }

  lemma EndAlone(m: Machine, name: string)
    ensures Continue(m, [End(name)]) == Success(OnEnd(m, LocalName(name)))
  {
    assert [End(name)][1..] == [];
  }

  /** What the reader delivers for a piece is flat, or holds an error. */
  predicate FlatOrMalformed(events: seq<XmlEvent>) {
    forall e :: e in events ==> e.Text? || e.Ref? || e.CData? || e.Other? || e.Malformed?
  }

  lemma {:induction false} DeliverIsFlat(s: string)
    ensures FlatOrMalformed(Deliver(s))
    decreases |s|
  {
    if SplitOnce(s, '&').Some? && SplitOnce(SplitOnce(s, '&').value.1, ';').Some? {
      DeliverIsFlat(SplitOnce(SplitOnce(s, '&').value.1, ';').value.1);
    }
  }

  lemma {:induction false} DeliveredIsFlat(pieces: seq<Piece>)
    ensures FlatOrMalformed(Delivered(pieces))
  {
    if pieces != [] {
      if pieces[0].Chars? { DeliverIsFlat(C.Decode(pieces[0].source)); }
      DeliveredIsFlat(pieces[1..]);
    }
  }

  /** An error in the content ends the request. */
  lemma {:induction false} ErrorStops(m: Machine, events: seq<XmlEvent>, rest: seq<XmlEvent>)
    requires FlatOrMalformed(events) && Malformed in events
    ensures Continue(m, events + rest) == Failure(MalformedXml)
    decreases events
  {
    assert events[0] in events;
    assert (events + rest)[1..] == events[1..] + rest;
    if events[0] != Malformed {
      assert events == [events[0]] + events[1..];
      forall e | e in events[1..] ensures e.Text? || e.Ref? || e.CData? || e.Other? || e.Malformed? { assert e in events; }
      ErrorStops(Next(m, events[0]).value, events[1..], rest);
    }
  }

  lemma LongElement(m: Machine, e: Element)
    requires ElementOk(e) && e.content.Long?
    ensures ElementName(e.tag).Success? && ElementName(e.tag).value.1 == LocalName(e.tag.name)
    ensures Continue(m, RenderElement(e)) ==
            Continue(OnStart(m, ElementName(e.tag).value.0, LocalName(e.tag.name)), Delivered(e.content.pieces) + [End(e.tag.name)])
  {
    ElementNameIsRead(e.tag);
    assert RenderElement(e)[1..] == Delivered(e.content.pieces) + [End(e.tag.name)];
  }

  lemma ShortElement(m: Machine, e: Element)
    requires ElementOk(e) && e.content.Short?
    ensures ElementName(e.tag).Success? && ElementName(e.tag).value.1 == LocalName(e.tag.name)
    ensures Continue(m, RenderElement(e)) == Success(OnEmpty(m, ElementName(e.tag).value.0, LocalName(e.tag.name)))
  {
    ElementNameIsRead(e.tag);
    assert RenderElement(e)[1..] == [];
  }

  lemma ElementFails(m: Machine, e: Element)
    requires ElementOk(e) && !Readable(e.content)
    ensures Continue(m, RenderElement(e)) == Failure(MalformedXml)
  {
    LongElement(m, e);
    DeliveredIsFlat(e.content.pieces);
    ErrorStops(OnStart(m, ElementName(e.tag).value.0, LocalName(e.tag.name)), Delivered(e.content.pieces), [End(e.tag.name)]);
  }

  lemma ReadableIsFlat(content: Content)
    requires content.Long? && Readable(content)
    ensures Flat(Delivered(content.pieces))
  {
    DeliveredIsFlat(content.pieces);
  }

  /** Between properties: in exactly the block's own mode, with none open. */
  predicate Between(m: Machine, isSet: bool) {
    m.inSet == isSet && m.inRemove == !isSet && m.current.None?
  }

  lemma ElementIsTaken(m: Machine, isSet: bool, e: Element)
    requires Between(m, isSet) && ElementOk(e) && Recoverable(e) && Readable(e.content)
    ensures ElementName(e.tag).Success?
    ensures Continue(m, RenderElement(e)) == Success(Push(m, [Taken(isSet, e)]))
  {
    match e.content
    case Short => ShortElement(m, e);
    case Long(pieces) =>
      LongElement(m, e);
      ReadableIsFlat(e.content);
      var next := OnStart(m, ElementName(e.tag).value.0, LocalName(e.tag.name));
      if isSet {
        PiecesTaken(next, Delivered(pieces), e.tag.name);
      } else {
        PiecesIgnored(next, Delivered(pieces));
        ContinueConcat(next, Delivered(pieces), [End(e.tag.name)]);
        EndAlone(next, e.tag.name);
      }
  }

  /** `m` leads to a state with no property open and at most `n` actions more. */
  ghost predicate Adds(m: Machine, events: seq<XmlEvent>, n: nat) {
    && Continue(m, events).Success?
    && Continue(m, events).value.current.None?
    && |Continue(m, events).value.actions| <= |m.actions| + n
  }

  lemma AddsConcat(m: Machine, a: seq<XmlEvent>, j: nat, b: seq<XmlEvent>, k: nat)
    requires Adds(m, a, j) && Adds(Continue(m, a).value, b, k)
    ensures Adds(m, a + b, j + k)
  {
    ContinueConcat(m, a, b);
  }

  /** From any state an element adds at most one action, and none when it is not recoverable. */
  lemma ElementAdds(m: Machine, e: Element)
    requires m.current.None? && ElementOk(e) && Readable(e.content)
    ensures Adds(m, RenderElement(e), if Recoverable(e) then 1 else 0)
  {
    match e.content
    case Short => ShortElement(m, e);
    case Long(pieces) =>
      LongElement(m, e);
      ReadableIsFlat(e.content);
      var next := OnStart(m, ElementName(e.tag).value.0, LocalName(e.tag.name));
      if next.inSet && next.current.Some? {
        PiecesTaken(next, Delivered(pieces), e.tag.name);
      } else {
        PiecesIgnored(next, Delivered(pieces));
        ContinueConcat(next, Delivered(pieces), [End(e.tag.name)]);
        EndAlone(next, e.tag.name);
      }
  }

  /** An element inside a property takes its value: of `<p><q>x</q></p>` the property `q` is set to `x`, and
      `p` is not set. */
  lemma InnerElementTakesValue(m: Machine, p: Tag, q: Tag, text: string)
    requires Between(m, true) && ElementName(p).Success? && ElementName(q).Success?
    requires Ordinary(LocalName(p.name)) && Ordinary(LocalName(q.name))
    ensures Continue(m, [Start(p)] + [Start(q), Text(text), End(q.name), End(p.name)]) ==
            Success(Push(m, [Action(ClarkKey(ElementName(q).value.0, LocalName(q.name)), Some(C.Decode(text)))]))
  {
    LocalIsRead(p);
    LocalIsRead(q);
    var m1 := OnStart(m, ElementName(p).value.0, LocalName(p.name));
    var m2 := OnStart(m1, ElementName(q).value.0, LocalName(q.name));
    var m3 := TakeValue(m2, C.Decode(text));
    FirstEvent(m, Start(p), [Start(q), Text(text), End(q.name), End(p.name)], m1);
    FirstEvent(m1, Start(q), [Text(text), End(q.name), End(p.name)], m2);
    FirstEvent(m2, Text(text), [End(q.name), End(p.name)], m3);
    FirstEvent(m3, End(q.name), [End(p.name)], m3);
    EndAlone(m3, p.name);
    assert m3 == Push(m, [Action(ClarkKey(ElementName(q).value.0, LocalName(q.name)), Some(C.Decode(text)))]);
  }

  lemma FirstEvent(m: Machine, e: XmlEvent, rest: seq<XmlEvent>, next: Machine)
    requires Next(m, e) == Success(next)
    ensures Continue(m, [e] + rest) == Continue(next, rest)
  {
    assert ([e] + rest)[1..] == rest;
  }

  /** No name of the structure. */
  predicate Ordinary(local: string) {
    local != "set" && local != "remove" && local != "prop"
  }

  lemma LocalIsRead(tag: Tag)
    requires ElementName(tag).Success?
    ensures ElementName(tag).value.1 == LocalName(tag.name)
  {
  }

  // ---- Elements, blocks, requests -----------------------------------------------------------

  predicate AllReadable(elements: seq<Element>) {
    forall e :: e in elements ==> Readable(e.content)
  }

  predicate AllRecoverable(elements: seq<Element>) {
    forall e :: e in elements ==> Recoverable(e)
  }

  function AllTaken(isSet: bool, elements: seq<Element>): (r: seq<Action>)
    requires forall e :: e in elements ==> ElementName(e.tag).Success?
    ensures |r| == |elements|
  {
    if elements == [] then []
    else
      assert forall e :: e in elements[1..] ==> e in elements;
      [Taken(isSet, elements[0])] + AllTaken(isSet, elements[1..])
  }

  lemma NamesAreRead(elements: seq<Element>)
    requires forall e :: e in elements ==> ElementOk(e)
    ensures forall e :: e in elements ==> ElementName(e.tag).Success?
  {
    forall e | e in elements ensures ElementName(e.tag).Success? { ElementNameIsRead(e.tag); }
  }

  lemma PushTwice(m: Machine, a: seq<Action>, b: seq<Action>)
    ensures Push(Push(m, a), b) == Push(m, a + b)
  {
    Assoc(m.actions, a, b);
  }

  lemma {:induction false} ElementsAreTaken(m: Machine, isSet: bool, elements: seq<Element>)
    requires Between(m, isSet) && (forall e :: e in elements ==> ElementOk(e))
    requires AllReadable(elements) && AllRecoverable(elements)
    ensures forall e :: e in elements ==> ElementName(e.tag).Success?
    ensures Continue(m, RenderElements(elements)) == Success(Push(m, AllTaken(isSet, elements)))
    decreases elements
  {
    NamesAreRead(elements);
    if elements == [] {
      assert m.actions + AllTaken(isSet, elements) == m.actions;
    } else {
      var (e, rest) := (elements[0], elements[1..]);
      assert e in elements;
      forall d | d in rest ensures ElementOk(d) && Readable(d.content) && Recoverable(d) { assert d in elements; }
      ElementIsTaken(m, isSet, e);
      ContinueConcat(m, RenderElement(e), RenderElements(rest));
      ElementsAreTaken(Push(m, [Taken(isSet, e)]), isSet, rest);
      PushTwice(m, [Taken(isSet, e)], AllTaken(isSet, rest));
    }
  }

  function Count(elements: seq<Element>): (n: nat)
    ensures n <= |elements|
    ensures n == |elements| <==> AllRecoverable(elements)
  {
    if elements == [] then 0
    else
      assert forall e :: e in elements <==> e == elements[0] || e in elements[1..];
      (if Recoverable(elements[0]) then 1 else 0) + Count(elements[1..])
  }

  lemma {:induction false} ElementsAdd(m: Machine, elements: seq<Element>)
    requires m.current.None? && forall e :: e in elements ==> ElementOk(e)
    ensures AllReadable(elements) ==> Adds(m, RenderElements(elements), Count(elements))
    ensures !AllReadable(elements) ==> Continue(m, RenderElements(elements)) == Failure(MalformedXml)
    decreases elements
  {
    if elements != [] {
      var (e, rest) := (elements[0], elements[1..]);
      assert e in elements;
      forall d | d in rest ensures ElementOk(d) { assert d in elements; }
      assert forall d :: d in elements <==> d == e || d in rest;
      ContinueConcat(m, RenderElement(e), RenderElements(rest));
      if Readable(e.content) {
        ElementAdds(m, e);
        var next := Continue(m, RenderElement(e)).value;
        ElementsAdd(next, rest);
        if AllReadable(rest) {
          AddsConcat(m, RenderElement(e), if Recoverable(e) then 1 else 0, RenderElements(rest), Count(rest));
        }
      } else {
        ElementFails(m, e);
      }
    }
  }

  /** A DAV element is read with its local name, whatever is declared on it. */
  lemma DavName(prefix: Option<string>, local: string, attributes: seq<(string, string)>)
    requires (prefix.Some? ==> ':' !in prefix.value) && ':' !in local && DeclaresOk(attributes)
    ensures LocalName(QName(prefix, local)) == local
    ensures ElementName(Tag(QName(prefix, local), attributes)).Success?
    ensures ElementName(Tag(QName(prefix, local), attributes)).value.1 == local
  {
    ElementNameIsRead(Tag(QName(prefix, local), attributes));
    match prefix
    case Some(p) => SplitOnceAt(p, ':', local);
    case None => SplitOnceNone(local, ':');
  }

  /** A tag of the structure leads on to what it switches on. */
  lemma DavStart(m: Machine, prefix: Option<string>, local: string, attributes: seq<(string, string)>, rest: seq<XmlEvent>)
    requires (prefix.Some? ==> ':' !in prefix.value) && DeclaresOk(attributes)
    requires local == "set" || local == "remove" || local == "prop"
    ensures Continue(m, [Start(Tag(QName(prefix, local), attributes))] + rest) == Continue(OnStart(m, "", local), rest)
  {
    DavName(prefix, local, attributes);
    assert ([Start(Tag(QName(prefix, local), attributes))] + rest)[1..] == rest;
  }

  lemma BlockOpens(m: Machine, prefix: Option<string>, b: Block)
    requires (prefix.Some? ==> ':' !in prefix.value) && BlockOk(b)
    ensures Continue(m, RenderBlock(prefix, b)) ==
            Continue(OnStart(m, "", BlockName(b)),
                     RenderElements(b.elements) + [End(QName(prefix, "prop")), End(QName(prefix, BlockName(b)))])
  {
    var body := RenderElements(b.elements) + [End(QName(prefix, "prop")), End(QName(prefix, BlockName(b)))];
    DavStart(m, prefix, BlockName(b), b.attributes, [Start(Tag(QName(prefix, "prop"), b.propAttributes))] + body);
    DavStart(OnStart(m, "", BlockName(b)), prefix, "prop", b.propAttributes, body);
  }

  lemma BlockCloses(m: Machine, prefix: Option<string>, b: Block)
    requires (prefix.Some? ==> ':' !in prefix.value) && m.current.None?
    ensures Continue(m, [End(QName(prefix, "prop")), End(QName(prefix, BlockName(b)))]) ==
            Success(OnEnd(m, BlockName(b)))
  {
    var (prop, block) := (QName(prefix, "prop"), QName(prefix, BlockName(b)));
    DavName(prefix, "prop", []);
    DavName(prefix, BlockName(b), []);
    assert [End(prop)] + [End(block)] == [End(prop), End(block)];
    EndAlone(m, prop);
    ContinueConcat(m, [End(prop)], [End(block)]);
    EndAlone(m, block);
  }

  /** Outside every block. */
  predicate Outside(m: Machine) {
    !m.inSet && !m.inRemove && m.current.None?
  }

  lemma BlockIsTaken(m: Machine, prefix: Option<string>, b: Block)
    requires (prefix.Some? ==> ':' !in prefix.value) && Outside(m) && BlockOk(b)
    requires AllReadable(b.elements) && AllRecoverable(b.elements)
    ensures forall e :: e in b.elements ==> ElementName(e.tag).Success?
    ensures Continue(m, RenderBlock(prefix, b)) == Success(Push(m, AllTaken(b.isSet, b.elements)))
  {
    var close := [End(QName(prefix, "prop")), End(QName(prefix, BlockName(b)))];
    BlockOpens(m, prefix, b);
    var open := OnStart(m, "", BlockName(b));
    ElementsAreTaken(open, b.isSet, b.elements);
    ContinueConcat(open, RenderElements(b.elements), close);
    BlockCloses(Push(open, AllTaken(b.isSet, b.elements)), prefix, b);
  }

  lemma BlockAdds(m: Machine, prefix: Option<string>, b: Block)
    requires (prefix.Some? ==> ':' !in prefix.value) && m.current.None? && BlockOk(b)
    ensures AllReadable(b.elements) ==> Adds(m, RenderBlock(prefix, b), Count(b.elements))
    ensures !AllReadable(b.elements) ==> Continue(m, RenderBlock(prefix, b)) == Failure(MalformedXml)
  {
    var close := [End(QName(prefix, "prop")), End(QName(prefix, BlockName(b)))];
    BlockOpens(m, prefix, b);
    var open := OnStart(m, "", BlockName(b));
    ElementsAdd(open, b.elements);
    ContinueConcat(open, RenderElements(b.elements), close);
    if AllReadable(b.elements) {
      BlockCloses(Continue(open, RenderElements(b.elements)).value, prefix, b);
      AddsConcat(open, RenderElements(b.elements), Count(b.elements), close, 0);
    }
  }

  predicate BlocksReadable(blocks: seq<Block>) {
    forall b :: b in blocks ==> AllReadable(b.elements)
  }

  predicate BlocksRecoverable(blocks: seq<Block>) {
    forall b :: b in blocks ==> AllRecoverable(b.elements)
  }

  function RequestTaken(blocks: seq<Block>): seq<Action>
    requires forall b, e :: b in blocks && e in b.elements ==> ElementName(e.tag).Success?
  {
    if blocks == [] then []
    else
      assert blocks[0] in blocks;
      assert forall b :: b in blocks[1..] ==> b in blocks;
      AllTaken(blocks[0].isSet, blocks[0].elements) + RequestTaken(blocks[1..])
  }

  lemma {:induction false} BlocksAreTaken(m: Machine, prefix: Option<string>, blocks: seq<Block>)
    requires (prefix.Some? ==> ':' !in prefix.value) && Outside(m)
    requires (forall b :: b in blocks ==> BlockOk(b)) && BlocksReadable(blocks) && BlocksRecoverable(blocks)
    ensures forall b, e :: b in blocks && e in b.elements ==> ElementName(e.tag).Success?
    ensures Continue(m, RenderBlocks(prefix, blocks)) == Success(Push(m, RequestTaken(blocks)))
    decreases blocks
  {
    forall b | b in blocks ensures forall e :: e in b.elements ==> ElementName(e.tag).Success? { NamesAreRead(b.elements); }
    if blocks == [] {
      assert m.actions + RequestTaken(blocks) == m.actions;
    } else {
      var (b, rest) := (blocks[0], blocks[1..]);
      assert b in blocks;
      forall d | d in rest ensures BlockOk(d) && AllReadable(d.elements) && AllRecoverable(d.elements) { assert d in blocks; }
      BlockIsTaken(m, prefix, b);
      ContinueConcat(m, RenderBlock(prefix, b), RenderBlocks(prefix, rest));
      BlocksAreTaken(Push(m, AllTaken(b.isSet, b.elements)), prefix, rest);
      PushTwice(m, AllTaken(b.isSet, b.elements), RequestTaken(rest));
    }
  }

  function CountAll(blocks: seq<Block>): nat {
    if blocks == [] then 0 else Count(blocks[0].elements) + CountAll(blocks[1..])
  }

  lemma {:induction false} CountMeans(rootAttributes: seq<(string, string)>, blocks: seq<Block>)
    ensures CountAll(blocks) <= |Instructions(rootAttributes, blocks)|
    ensures CountAll(blocks) == |Instructions(rootAttributes, blocks)| <==> BlocksRecoverable(blocks)
  {
    if blocks != [] {
      assert forall b :: b in blocks <==> b == blocks[0] || b in blocks[1..];
      CountMeans(rootAttributes, blocks[1..]);
    }
  }

  lemma {:induction false} BlocksAdd(m: Machine, prefix: Option<string>, blocks: seq<Block>)
    requires (prefix.Some? ==> ':' !in prefix.value) && m.current.None? && forall b :: b in blocks ==> BlockOk(b)
    ensures BlocksReadable(blocks) ==> Adds(m, RenderBlocks(prefix, blocks), CountAll(blocks))
    ensures !BlocksReadable(blocks) ==> Continue(m, RenderBlocks(prefix, blocks)) == Failure(MalformedXml)
    decreases blocks
  {
    if blocks != [] {
      var (b, rest) := (blocks[0], blocks[1..]);
      assert b in blocks;
      forall d | d in rest ensures BlockOk(d) { assert d in blocks; }
      assert forall d :: d in blocks <==> d == b || d in rest;
      ContinueConcat(m, RenderBlock(prefix, b), RenderBlocks(prefix, rest));
      BlockAdds(m, prefix, b);
      if AllReadable(b.elements) {
        BlocksAdd(Continue(m, RenderBlock(prefix, b)).value, prefix, rest);
        if BlocksReadable(rest) {
          AddsConcat(m, RenderBlock(prefix, b), Count(b.elements), RenderBlocks(prefix, rest), CountAll(rest));
        }
      }
    }
  }

  // ---- What is taken is what is meant ---------------------------------------------------------

  /** Losing its namespace gives an element another key. */
  lemma KeyTellsNamespace(ns: string, local: string)
    ensures ClarkKey("", local) == ClarkKey(ns, local) <==> ns == ""
  {
    if ns != "" {
      assert |ClarkKey(ns, local)| == |ns| + |local| + 2;
    }
  }

  lemma TakenIsMeantIff(isSet: bool, scope: seq<(string, string)>, e: Element)
    requires ElementOk(e)
    ensures ElementName(e.tag).Success?
    ensures Taken(isSet, e) == ActionOf(Meant(isSet, scope, e)) <==>
            KeepsNamespace(e.tag, scope) && (isSet ==> Arrives(e.content))
  {
    ElementNameIsRead(e.tag);
    ValueArrivesIff(e.content);
    KeyTellsNamespace(Expanded(e.tag, scope).0, LocalName(e.tag.name));
  }

  lemma ArrivesIsReadable(content: Content)
    requires Arrives(content)
    ensures Readable(content)
  {
    if content.Long? {
      forall p | p in content.pieces ensures Malformed !in PieceEvents(p) {
        if p.Chars? {
          SplitOnceNone(C.Decode(p.source), '&');
        }
      }
      EventsOfPieces(content.pieces);
    }
  }

  lemma {:induction false} EventsOfPieces(pieces: seq<Piece>)
    requires forall p :: p in pieces ==> Malformed !in PieceEvents(p)
    ensures Malformed !in Delivered(pieces)
  {
    if pieces != [] {
      assert pieces[0] in pieces;
      forall p | p in pieces[1..] ensures Malformed !in PieceEvents(p) { assert p in pieces; }
      EventsOfPieces(pieces[1..]);
    }
  }

  lemma {:induction false} AllTakenIsMeantIff(isSet: bool, scope: seq<(string, string)>, elements: seq<Element>)
    requires (forall e :: e in elements ==> ElementOk(e)) && AllReadable(elements) && AllRecoverable(elements)
    ensures forall e :: e in elements ==> ElementName(e.tag).Success?
    ensures AllTaken(isSet, elements) == Actions(BlockInstructions(isSet, scope, elements)) <==>
            forall e :: e in elements ==> Survives(isSet, scope, e)
    decreases elements
  {
    NamesAreRead(elements);
    if elements != [] {
      var (e, rest) := (elements[0], elements[1..]);
      assert e in elements;
      forall d | d in rest ensures ElementOk(d) && Readable(d.content) && Recoverable(d) { assert d in elements; }
      assert forall d :: d in elements <==> d == e || d in rest;
      TakenIsMeantIff(isSet, scope, e);
      AllTakenIsMeantIff(isSet, scope, rest);
      ActionsConcat([Meant(isSet, scope, e)], BlockInstructions(isSet, scope, rest));
      OneAction(Meant(isSet, scope, e));
      SameParts([Taken(isSet, e)], AllTaken(isSet, rest),
                [ActionOf(Meant(isSet, scope, e))], Actions(BlockInstructions(isSet, scope, rest)));
      assert Survives(isSet, scope, e) <==> KeepsNamespace(e.tag, scope) && (isSet ==> Arrives(e.content));
      assert [Taken(isSet, e)][0] == Taken(isSet, e);
    }
  }

  lemma ActionsConcat(a: seq<Instruction>, b: seq<Instruction>)
    ensures Actions(a + b) == Actions(a) + Actions(b)
  {
  }

  lemma OneAction(i: Instruction)
    ensures Actions([i]) == [ActionOf(i)]
  {
  }

  lemma SameParts(a: seq<Action>, b: seq<Action>, c: seq<Action>, d: seq<Action>)
    requires |a| == |c|
    ensures a + b == c + d <==> a == c && b == d
  {
    if a + b == c + d {
      assert (a + b)[..|a|] == a && (c + d)[..|a|] == c;
      assert (a + b)[|a|..] == b && (c + d)[|a|..] == d;
    }
  }

  lemma {:induction false} RequestTakenIsMeantIff(rootAttributes: seq<(string, string)>, blocks: seq<Block>)
    requires (forall b :: b in blocks ==> BlockOk(b)) && BlocksReadable(blocks) && BlocksRecoverable(blocks)
    ensures forall b, e :: b in blocks && e in b.elements ==> ElementName(e.tag).Success?
    ensures RequestTaken(blocks) == Actions(Instructions(rootAttributes, blocks)) <==>
            forall b :: b in blocks ==> BlockSurvives(b, rootAttributes)
    decreases blocks
  {
    forall b | b in blocks ensures forall e :: e in b.elements ==> ElementName(e.tag).Success? { NamesAreRead(b.elements); }
    if blocks != [] {
      var (b, rest) := (blocks[0], blocks[1..]);
      assert b in blocks;
      forall d | d in rest ensures BlockOk(d) && AllReadable(d.elements) && AllRecoverable(d.elements) { assert d in blocks; }
      assert forall d :: d in blocks <==> d == b || d in rest;
      var scope := ScopeOf(b, rootAttributes);
      AllTakenIsMeantIff(b.isSet, scope, b.elements);
      RequestTakenIsMeantIff(rootAttributes, rest);
      ActionsConcat(BlockInstructions(b.isSet, scope, b.elements), Instructions(rootAttributes, rest));
      SameParts(AllTaken(b.isSet, b.elements), RequestTaken(rest),
                Actions(BlockInstructions(b.isSet, scope, b.elements)), Actions(Instructions(rootAttributes, rest)));
    }
  }

  // ---- The round trip -------------------------------------------------------------------------

  lemma RootOpens(prefix: Option<string>, rootAttributes: seq<(string, string)>, rest: seq<XmlEvent>)
    requires (prefix.Some? ==> ':' !in prefix.value) && DeclaresOk(rootAttributes)
    ensures Continue(INITIAL, [Start(Tag(QName(prefix, "propertyupdate"), rootAttributes))] + rest) == Continue(INITIAL, rest)
  {
    DavName(prefix, "propertyupdate", rootAttributes);
    assert ([Start(Tag(QName(prefix, "propertyupdate"), rootAttributes))] + rest)[1..] == rest;
  }

  lemma {:induction false} RootCloses(m: Machine, prefix: Option<string>)
    requires (prefix.Some? ==> ':' !in prefix.value) && m.current.None?
    ensures Continue(m, [End(QName(prefix, "propertyupdate"))]) == Success(m)
  {
    DavName(prefix, "propertyupdate", []);
    EndAlone(m, QName(prefix, "propertyupdate"));
  }

  /** The root element changes nothing. */
  lemma RootIsTransparent(prefix: Option<string>, rootAttributes: seq<(string, string)>, blocks: seq<Block>)
    requires RequestOk(prefix, rootAttributes, blocks)
    ensures Continue(INITIAL, Render(prefix, rootAttributes, blocks)) == Continue(INITIAL, RenderBlocks(prefix, blocks))
  {
    var (body, close) := (RenderBlocks(prefix, blocks), [End(QName(prefix, "propertyupdate"))]);
    RootOpens(prefix, rootAttributes, body + close);
    BlocksAdd(INITIAL, prefix, blocks);
    ContinueConcat(INITIAL, body, close);
    if BlocksReadable(blocks) {
      RootCloses(Continue(INITIAL, body).value, prefix);
    }
  }

  lemma SurvivorsAreRead(rootAttributes: seq<(string, string)>, blocks: seq<Block>)
    requires forall b :: b in blocks ==> BlockSurvives(b, rootAttributes)
    ensures BlocksReadable(blocks) && BlocksRecoverable(blocks)
  {
    forall b | b in blocks ensures AllReadable(b.elements) && AllRecoverable(b.elements) {
      forall e | e in b.elements ensures Readable(e.content) && Recoverable(e) {
        assert Survives(b.isSet, ScopeOf(b, rootAttributes), e);
        if b.isSet { ArrivesIsReadable(e.content); }
      }
    }
  }

  /** For every flat request, the server parses exactly what the client asks for, in document order,
      precisely when every element survives: its name is not mistaken for structure, it declares its
      own namespace or has none, and its value is at most one piece of clean text. */
  lemma ParseInvertsRenderIff(prefix: Option<string>, rootAttributes: seq<(string, string)>, blocks: seq<Block>)
    requires RequestOk(prefix, rootAttributes, blocks)
    ensures Parse(Render(prefix, rootAttributes, blocks)) ==
              (if Instructions(rootAttributes, blocks) == [] then Failure(NoActions) else Success(Actions(Instructions(rootAttributes, blocks)))) <==>
            forall b :: b in blocks ==> BlockSurvives(b, rootAttributes)
  {
    RootIsTransparent(prefix, rootAttributes, blocks);
    BlocksAdd(INITIAL, prefix, blocks);
    CountMeans(rootAttributes, blocks);
    if BlocksReadable(blocks) && BlocksRecoverable(blocks) {
      BlocksAreTaken(INITIAL, prefix, blocks);
      RequestTakenIsMeantIff(rootAttributes, blocks);
      assert [] + RequestTaken(blocks) == RequestTaken(blocks);
    } else if forall b :: b in blocks ==> BlockSurvives(b, rootAttributes) {
      SurvivorsAreRead(rootAttributes, blocks);
    }
  }
}
