/** The text of a PROPPATCH body. Numeric references are decoded in the whole of it before it is taken
    apart, and for a conforming request that is decoding its pieces one by one. */
module PropPatchBody {
  import opened Prelude
  import opened P = PropPatchParser
  import opened Text
  import C = CharRefs

  // Every function gives its part of the text, followed by `rest`.

  function PieceSource(p: Piece, rest: string): string {
    match p
    case Chars(source) => source + rest
    case Entity(name, _) => "&" + (name + (";" + rest))
    case CharData(text) => "<![CDATA[" + (text + ("]]>" + rest))
    case Comment(text) => "<!--" + (text + ("-->" + rest))
  }

  function PiecesSource(pieces: seq<Piece>, rest: string): string {
    if pieces == [] then rest else PieceSource(pieces[0], PiecesSource(pieces[1..], rest))
  }

  function AttributesSource(attributes: seq<(string, string)>, rest: string): string {
    if attributes == [] then rest
    else
      var (name, value) := attributes[0];
      " " + (name + ("=\"" + (value + ("\"" + AttributesSource(attributes[1..], rest)))))
  }

  function StartSource(tag: Tag, rest: string): string {
    "<" + (tag.name + AttributesSource(tag.attributes, ">" + rest))
  }

  function EmptySource(tag: Tag, rest: string): string {
    "<" + (tag.name + AttributesSource(tag.attributes, "/>" + rest))
  }

  function EndSource(name: string, rest: string): string {
    "</" + (name + (">" + rest))
  }

  function ElementSource(e: Element, rest: string): string {
    match e.content
    case Short => EmptySource(e.tag, rest)
    case Long(pieces) => StartSource(e.tag, PiecesSource(pieces, EndSource(e.tag.name, rest)))
  }

  function ElementsSource(elements: seq<Element>, rest: string): string {
    if elements == [] then rest else ElementSource(elements[0], ElementsSource(elements[1..], rest))
  }

  function BlockSource(prefix: Option<string>, b: Block, rest: string): string {
    StartSource(Tag(QName(prefix, BlockName(b)), b.attributes),
                StartSource(Tag(QName(prefix, "prop"), b.propAttributes),
                            ElementsSource(b.elements, EndSource(QName(prefix, "prop"), EndSource(QName(prefix, BlockName(b)), rest)))))
  }

  function BlocksSource(prefix: Option<string>, blocks: seq<Block>, rest: string): string {
    if blocks == [] then rest else BlockSource(prefix, blocks[0], BlocksSource(prefix, blocks[1..], rest))
  }

  /** The body that the client sends, for which the reader delivers `Render`. */
  function BodySource(prefix: Option<string>, rootAttributes: seq<(string, string)>, blocks: seq<Block>): string {
    StartSource(Tag(QName(prefix, "propertyupdate"), rootAttributes),
                BlocksSource(prefix, blocks, EndSource(QName(prefix, "propertyupdate"), "")))
  }

  // ---- The request with its pieces decoded -------------------------------------------------------

  function DecodedPieces(pieces: seq<Piece>): seq<Piece> {
    if pieces == [] then [] else [DecodedPiece(pieces[0])] + DecodedPieces(pieces[1..])
  }

  function DecodedElement(e: Element): Element {
    match e.content
    case Short => e
    case Long(pieces) => Element(e.tag, Long(DecodedPieces(pieces)))
  }

  function DecodedElements(elements: seq<Element>): seq<Element> {
    if elements == [] then [] else [DecodedElement(elements[0])] + DecodedElements(elements[1..])
  }

  function DecodedBlock(b: Block): Block {
    b.(elements := DecodedElements(b.elements))
  }

  function DecodedBlocks(blocks: seq<Block>): seq<Block> {
    if blocks == [] then [] else [DecodedBlock(blocks[0])] + DecodedBlocks(blocks[1..])
  }

  // ---- Decoding the whole is decoding the pieces -------------------------------------------------

  /** Nothing that a reference could go on with. */
  predicate Starts(rest: string) {
    rest == "" || rest[0] != '#'
  }

  lemma DecodeEntity(name: string, rest: string)
    requires name != "" && name[0] != '#' && '&' !in name
    ensures C.Decode("&" + (name + (";" + rest))) == "&" + (name + (";" + C.Decode(rest)))
  {
    assert C.FindRef("&") == None;
    C.DecodeAfterPlain("&", name + (";" + rest));
    C.DecodeAfter(name, ";" + rest);
    C.DecodeAfter(";", rest);
  }

  lemma DecodeQuoted(open: string, text: string, close: string, rest: string)
    requires C.Closed(text) && '&' !in open && '&' !in close && close != "" && close[0] != '#'
    ensures C.Decode(open + (text + (close + rest))) == open + (C.Decode(text) + (close + C.Decode(rest)))
  {
    C.DecodeAfter(open, text + (close + rest));
    C.DecodeConcat(text, close + rest);
    C.DecodeAfter(close, rest);
  }

  lemma DecodePiece(p: Piece, rest: string)
    requires PieceOk(p) && (p.Chars? ==> Starts(rest))
    ensures C.Decode(PieceSource(p, rest)) == PieceSource(DecodedPiece(p), C.Decode(rest))
  {
    match p
    case Chars(source) => C.DecodeConcat(source, rest);
    case Entity(name, _) => DecodeEntity(name, rest);
    case CharData(text) => DecodeQuoted("<![CDATA[", text, "]]>", rest);
    case Comment(text) => DecodeQuoted("<!--", text, "-->", rest);
  }

  lemma StartOfPieces(pieces: seq<Piece>, rest: string)
    requires if pieces == [] then Starts(rest) else !pieces[0].Chars?
    ensures Starts(PiecesSource(pieces, rest))
  {
  }

  lemma ContentOfRest(pieces: seq<Piece>)
    requires ContentOk(Long(pieces)) && pieces != []
    ensures PieceOk(pieces[0]) && ContentOk(Long(pieces[1..]))
    ensures pieces[0].Chars? && pieces[1..] != [] ==> !pieces[1..][0].Chars?
  {
    var rest := pieces[1..];
    assert pieces[0] in pieces;
    forall q | q in rest ensures PieceOk(q) { assert q in pieces; }
    forall i | 0 < i < |rest| && rest[i].Chars? ensures !rest[i - 1].Chars? { assert rest[i] == pieces[i + 1]; }
  }

  lemma {:induction false} DecodePieces(pieces: seq<Piece>, rest: string)
    requires ContentOk(Long(pieces)) && Starts(rest)
    ensures C.Decode(PiecesSource(pieces, rest)) == PiecesSource(DecodedPieces(pieces), C.Decode(rest))
    decreases pieces
  {
    if pieces != [] {
      ContentOfRest(pieces);
      if pieces[0].Chars? { StartOfPieces(pieces[1..], rest); }
      DecodePieces(pieces[1..], rest);
      DecodePiece(pieces[0], PiecesSource(pieces[1..], rest));
    }
  }

  lemma {:induction false} DecodeAttributes(attributes: seq<(string, string)>, rest: string)
    requires AttributesOk(attributes)
    ensures C.Decode(AttributesSource(attributes, rest)) == AttributesSource(attributes, C.Decode(rest))
    decreases attributes
  {
    if attributes != [] {
      var ((name, value), others) := (attributes[0], attributes[1..]);
      assert attributes[0] in attributes;
      forall a | a in others ensures a in attributes {}
      var tail := AttributesSource(others, rest);
      DecodeAttributes(others, rest);
      C.DecodeAfter("\"", tail);
      C.DecodeAfterPlain(value, "\"" + tail);
      C.DecodeAfter("=\"", value + ("\"" + tail));
      C.DecodeAfter(name, "=\"" + (value + ("\"" + tail)));
      C.DecodeAfter(" ", name + ("=\"" + (value + ("\"" + tail))));
    }
  }

  lemma DecodeStart(tag: Tag, rest: string)
    requires '&' !in tag.name && AttributesOk(tag.attributes)
    ensures C.Decode(StartSource(tag, rest)) == StartSource(tag, C.Decode(rest))
    ensures C.Decode(EmptySource(tag, rest)) == EmptySource(tag, C.Decode(rest))
  {
    DecodeTag(tag, ">", rest);
    DecodeTag(tag, "/>", rest);
  }

  lemma DecodeTag(tag: Tag, close: string, rest: string)
    requires '&' !in tag.name && '&' !in close && AttributesOk(tag.attributes)
    ensures C.Decode("<" + (tag.name + AttributesSource(tag.attributes, close + rest))) ==
            "<" + (tag.name + AttributesSource(tag.attributes, close + C.Decode(rest)))
  {
    var attributes := AttributesSource(tag.attributes, close + rest);
    C.DecodeAfter(close, rest);
    DecodeAttributes(tag.attributes, close + rest);
    C.DecodeAfter(tag.name, attributes);
    C.DecodeAfter("<", tag.name + attributes);
  }

  lemma DecodeEnd(name: string, rest: string)
    requires '&' !in name
    ensures C.Decode(EndSource(name, rest)) == EndSource(name, C.Decode(rest))
  {
    C.DecodeAfter(">", rest);
    C.DecodeAfter(name, ">" + rest);
    C.DecodeAfter("</", name + (">" + rest));
  }

  lemma DecodeElement(e: Element, rest: string)
    requires ElementOk(e)
    ensures C.Decode(ElementSource(e, rest)) == ElementSource(DecodedElement(e), C.Decode(rest))
  {
    match e.content
    case Short => DecodeStart(e.tag, rest);
    case Long(pieces) =>
      var close := EndSource(e.tag.name, rest);
      DecodeEnd(e.tag.name, rest);
      assert Starts(close);
      DecodePieces(pieces, close);
      DecodeStart(e.tag, PiecesSource(pieces, close));
  }

  lemma {:induction false} DecodeElements(elements: seq<Element>, rest: string)
    requires forall e :: e in elements ==> ElementOk(e)
    ensures C.Decode(ElementsSource(elements, rest)) == ElementsSource(DecodedElements(elements), C.Decode(rest))
    decreases elements
  {
    if elements != [] {
      assert elements[0] in elements;
      forall e | e in elements[1..] ensures ElementOk(e) { assert e in elements; }
      DecodeElements(elements[1..], rest);
      DecodeElement(elements[0], ElementsSource(elements[1..], rest));
    }
  }

  lemma NameIsPlain(prefix: Option<string>, local: string)
    requires PrefixOk(prefix) && '&' !in local
    ensures '&' !in QName(prefix, local)
  {
  }

  lemma DecodeBlock(prefix: Option<string>, b: Block, rest: string)
    requires PrefixOk(prefix) && BlockOk(b)
    ensures C.Decode(BlockSource(prefix, b, rest)) == BlockSource(prefix, DecodedBlock(b), C.Decode(rest))
  {
    var (name, prop) := (QName(prefix, BlockName(b)), QName(prefix, "prop"));
    NameIsPlain(prefix, BlockName(b));
    NameIsPlain(prefix, "prop");
    var close := EndSource(prop, EndSource(name, rest));
    DecodeEnd(name, rest);
    DecodeEnd(prop, EndSource(name, rest));
    DecodeElements(b.elements, close);
    DecodeStart(Tag(prop, b.propAttributes), ElementsSource(b.elements, close));
    DecodeStart(Tag(name, b.attributes), StartSource(Tag(prop, b.propAttributes), ElementsSource(b.elements, close)));
  }

  lemma {:induction false} DecodeBlocks(prefix: Option<string>, blocks: seq<Block>, rest: string)
    requires PrefixOk(prefix) && forall b :: b in blocks ==> BlockOk(b)
    ensures C.Decode(BlocksSource(prefix, blocks, rest)) == BlocksSource(prefix, DecodedBlocks(blocks), C.Decode(rest))
    decreases blocks
  {
    if blocks != [] {
      assert blocks[0] in blocks;
      forall b | b in blocks[1..] ensures BlockOk(b) { assert b in blocks; }
      DecodeBlocks(prefix, blocks[1..], rest);
      DecodeBlock(prefix, blocks[0], BlocksSource(prefix, blocks[1..], rest));
    }
  }

  /** Decoding the body as a whole is decoding the pieces of its values one by one, and leaves its tags
      and the boundaries of its sections and comments where they are. */
  lemma DecodeOfBody(prefix: Option<string>, rootAttributes: seq<(string, string)>, blocks: seq<Block>)
    requires RequestOk(prefix, rootAttributes, blocks)
    ensures C.Decode(BodySource(prefix, rootAttributes, blocks)) == BodySource(prefix, rootAttributes, DecodedBlocks(blocks))
  {
    var root := QName(prefix, "propertyupdate");
    NameIsPlain(prefix, "propertyupdate");
    var close := EndSource(root, "");
    DecodeEnd(root, "");
    DecodeBlocks(prefix, blocks, close);
    DecodeStart(Tag(root, rootAttributes), BlocksSource(prefix, blocks, close));
  }

  // ---- A comment that holds a reference mark -----------------------------------------------------

  /** What holds the end of a comment is no number. */
  lemma NoNumberWithClose(s: string, radix: nat)
    requires '>' in s
    ensures C.CharOf(s, radix) == ""
  {
    if s[0] == '+' { assert s == [s[0]] + s[1..]; }
    assert !C.IsDigit('>', radix) && C.HasOther(if s[0] == '+' then s[1..] else s, radix);
    C.NoCharacter(s, radix);
  }

  lemma MarkSwallows(number: string, after: string)
    requires '>' in number && ';' !in number
    ensures C.AfterRef(number + ([';'] + after)) == C.Decode(after)
  {
    Assoc(number, [';'], after);
    if C.IsHex(number) {
      HexSwallows(number[0], number[1..], after, number + ([';'] + after));
    } else {
      SplitOnceAt(number, ';', after);
      NoNumberWithClose(number, 10);
    }
  }

  lemma HexSwallows(x: char, digits: string, after: string, tail: string)
    requires '>' in digits && ';' !in digits && (x == 'x' || x == 'X')
    requires tail == [x] + digits + [';'] + after
    ensures C.AfterRef(tail) == C.Decode(after)
  {
    assert tail[1..] == digits + [';'] + after;
    SplitOnceAt(digits, ';', after);
    NoNumberWithClose(digits, 16);
  }

  lemma DecodeMark(a: string, tail: string)
    requires '&' !in a
    ensures C.Decode(a + (['&', '#'] + tail)) == a + C.AfterRef(tail)
    ensures C.FindRef(a + (['&', '#'] + tail)) == Some(|a|)
  {
    var s := ['&', '#'] + tail;
    assert C.RefAt(s, 0) && s[0] == '&' && s[1] == '#' && s[2..] == tail && s[..0] == [];
    C.DecodeAfter(a, s);
    assert C.Joins(a, s) by { if a != "" { assert a[|a| - 1] in a; } }
    C.NoRefWithoutAmpersand(a);
    C.FindRefConcat(a, s);
  }

  /** A comment in which a reference mark is left open, as in `<!-- &# -->x;y</p>`: the mark runs on to the
      next `;`, and the end of the comment goes with it. Whatever the value after it, the reader sees a
      comment that goes on. */
  lemma CommentIsLeftOpen(a: string, b: string, v: string, w: string, rest: string)
    requires '&' !in a && ';' !in b && ';' !in v
    ensures !PieceOk(Comment(a + (['&', '#'] + b)))
    ensures C.Decode(PieceSource(Comment(a + (['&', '#'] + b)), PieceSource(Chars(v + ([';'] + w)), rest))) ==
            "<!--" + (a + C.Decode(w + rest))
  {
    MarkIsNotOk(a, b);
    SourceWithSemicolon(v, w, rest);
    DecodeOpenComment(a, b, "-->", v, w + rest);
  }

  lemma MarkIsNotOk(a: string, b: string)
    requires '&' !in a && ';' !in b
    ensures !PieceOk(Comment(a + (['&', '#'] + b)))
  {
    var text := a + (['&', '#'] + b);
    DecodeMark(a, b);
    assert text[|a| + 2..] == b;
    OpenMark(text, |a|, b);
  }

  lemma SourceWithSemicolon(v: string, w: string, rest: string)
    ensures PieceSource(Chars(v + ([';'] + w)), rest) == v + ([';'] + (w + rest))
  {
  }

  lemma DecodeOpenComment(a: string, b: string, end: string, v: string, after: string)
    requires '&' !in a && ';' !in b && ';' !in v && '>' in end && ';' !in end
    ensures C.Decode("<!--" + ((a + (['&', '#'] + b)) + (end + (v + ([';'] + after))))) == "<!--" + (a + C.Decode(after))
  {
    var number := b + (end + v);
    Regroup(a, ['&', '#'], b, end, v, [';'], after);
    MarkSwallows(number, after);
    DecodeMark(a, number + ([';'] + after));
    C.DecodeAfter("<!--", a + (['&', '#'] + (number + ([';'] + after))));
  }

  lemma Regroup(a: string, mark: string, b: string, end: string, v: string, stop: string, after: string)
    ensures (a + (mark + b)) + (end + (v + (stop + after))) == a + (mark + ((b + (end + v)) + (stop + after)))
  {
  }

  lemma OpenMark(s: string, i: nat, b: string)
    requires C.FindRef(s) == Some(i) && s[i + 2..] == b && ';' !in b
    ensures !C.Closed(s)
  {
    var digits := C.AfterMark(b).1;
    assert ';' !in digits;
    SplitOnceNone(digits, ';');
  }
}
