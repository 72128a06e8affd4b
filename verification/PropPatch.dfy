/** PROPPATCH on the dead properties of a resource: applying the parsed actions one by one, and
    what a client then reads back. */
module PropPatch {
  import opened Prelude
  import opened Paths
  import opened P = PropPatchParser
  import opened Text
  import C = CharRefs
  import F = FileTree

  type Properties = F.Properties

  function Apply(props: Properties, a: Action): Properties {
    match a.value
    case Some(value) => props[a.key := value]
    case None => props - {a.key}
  }

  function ApplyAll(props: Properties, actions: seq<Action>): Properties
    decreases actions
  {
    if actions == [] then props else ApplyAll(Apply(props, actions[0]), actions[1..])
  }

  function At(all: map<Path, Properties>, path: Path): Properties {
    if path in all then all[path] else map[]
  }

  class DeadProps {
    var props: map<Path, Properties>

    constructor ()
      ensures props == map[]
    {
      props := map[];
    }

    /** A body that does not parse changes nothing, not even for the actions before the error. */
    method Handle(path: Path, events: seq<XmlEvent>) returns (status: StatusCode)
      modifies `props
      ensures status == if Parse(events).Success? then MULTI_STATUS else BAD_REQUEST
      ensures Parse(events).Failure? ==> props == old(props)
      ensures Parse(events).Success? ==>
                props == old(props)[path := ApplyAll(At(old(props), path), Parse(events).value)]
    {
      var parsed := ParseRequest(events);
      if parsed.Failure? {
        return BAD_REQUEST;
      }
      var actions := parsed.value;
      var entry := if path in props then props[path] else map[];
      var i := 0;
      while i < |actions|
        invariant i <= |actions|
        invariant ApplyAll(entry, actions[i..]) == ApplyAll(At(old(props), path), actions)
      {
        assert actions[i..][0] == actions[i] && actions[i..][1..] == actions[i + 1..];
        match actions[i].value {
          case Some(value) =>
            entry := entry[actions[i].key := value];
          case None =>
            entry := entry - {actions[i].key};
        }
        i := i + 1;
      }
      props := props[path := entry];
      status := MULTI_STATUS;
    }
  }

  // ---- The last instruction decides --------------------------------------------------------

  function Lookup(props: Properties, key: string): Option<string> {
    if key in props then Some(props[key]) else None
  }

  /** What the last instruction for this property says; `None` when there is no instruction. */
  function LastFor(instructions: seq<Instruction>, ns: string, local: string): Option<Option<string>> {
    if instructions == [] then None
    else
      var last := instructions[|instructions| - 1];
      if last.ns == ns && last.local == local then Some(last.value)
      else LastFor(instructions[..|instructions| - 1], ns, local)
  }

  lemma {:induction false} ApplySnoc(props: Properties, actions: seq<Action>, a: Action)
    ensures ApplyAll(props, actions + [a]) == Apply(ApplyAll(props, actions), a)
    decreases actions
  {
    if actions == [] {
      assert [a][1..] == [] && [] + [a] == [a];
    } else {
      assert (actions + [a])[1..] == actions[1..] + [a];
      ApplySnoc(Apply(props, actions[0]), actions[1..], a);
    }
  }

  predicate Safe(i: Instruction) {
    ClarkSafe(i.ns, i.local)
  }

  /** Properties with safe names do not share a key. */
  lemma KeysApart(ns: string, local: string, otherNs: string, otherLocal: string)
    requires ClarkSafe(ns, local) && ClarkSafe(otherNs, otherLocal)
    ensures ClarkKey(ns, local) == ClarkKey(otherNs, otherLocal) <==> ns == otherNs && local == otherLocal
  {
    ClarkRoundTripIff(ns, local);
    ClarkRoundTripIff(otherNs, otherLocal);
  }

  /** Applying the actions in order leaves every property with what the last instruction for it
      says, and untouched where there is none. */
  lemma {:induction false} LastInstructionWins(props: Properties, instructions: seq<Instruction>,
                                               ns: string, local: string)
    requires ClarkSafe(ns, local) && forall i :: i in instructions ==> Safe(i)
    ensures Lookup(ApplyAll(props, Actions(instructions)), ClarkKey(ns, local)) ==
            match LastFor(instructions, ns, local)
            case Some(value) => value
            case None => Lookup(props, ClarkKey(ns, local))
    decreases instructions
  {
    if instructions != [] {
      var (init, last) := (instructions[..|instructions| - 1], instructions[|instructions| - 1]);
      assert last in instructions;
      forall i | i in init ensures Safe(i) { assert i in instructions; }
      assert Actions(instructions) == Actions(init) + [ActionOf(last)];
      ApplySnoc(props, Actions(init), ActionOf(last));
      KeysApart(ns, local, last.ns, last.local);
      LastInstructionWins(props, init, ns, local);
    }
  }

  /** PROPPATCH end to end: for every flat request all of whose elements survive, whose names are safe,
      and that holds an instruction, every property of the resource reads back as the last
      instruction for it says. */
  lemma RequestMeans(prefix: Option<string>, rootAttributes: seq<(string, string)>, blocks: seq<Block>,
                     props: Properties, ns: string, local: string)
    requires RequestOk(prefix, rootAttributes, blocks) && ClarkSafe(ns, local)
    requires Instructions(rootAttributes, blocks) != []
    requires forall b :: b in blocks ==> BlockSurvives(b, rootAttributes)
    requires forall i :: i in Instructions(rootAttributes, blocks) ==> Safe(i)
    ensures Parse(P.Render(prefix, rootAttributes, blocks)).Success?
    ensures Lookup(After(props, P.Render(prefix, rootAttributes, blocks)), ClarkKey(ns, local)) ==
            match LastFor(Instructions(rootAttributes, blocks), ns, local)
            case Some(value) => value
            case None => Lookup(props, ClarkKey(ns, local))
  {
    ParseInvertsRenderIff(prefix, rootAttributes, blocks);
    LastInstructionWins(props, Instructions(rootAttributes, blocks), ns, local);
  }

  /** The properties after a request, as `Handle` leaves them. */
  function After(props: Properties, events: seq<XmlEvent>): Properties {
    match Parse(events)
    case Success(actions) => ApplyAll(props, actions)
    case Failure(_) => props
  }

  /** The request that sets one property to a value written in numeric references. */
  function SetOne(tag: Tag, v: string): seq<Block> {
    [Block(true, [], [], [Element(tag, Long([Chars(C.Escape(v))]))])]
  }

  lemma SetOneIsTaken(prefix: Option<string>, rootAttributes: seq<(string, string)>, tag: Tag, v: string)
    requires RequestOk(prefix, rootAttributes, SetOne(tag, v))
    requires var e := SetOne(tag, v)[0].elements[0]; Recoverable(e) && Readable(e.content)
    ensures ElementName(tag).Success?
    ensures Parse(P.Render(prefix, rootAttributes, SetOne(tag, v))) ==
            Success([Taken(true, SetOne(tag, v)[0].elements[0])])
  {
    var blocks := SetOne(tag, v);
    var (b, e) := (blocks[0], blocks[0].elements[0]);
    assert b in blocks && e in b.elements && ElementOk(e);
    RootIsTransparent(prefix, rootAttributes, blocks);
    BlocksAreTaken(INITIAL, prefix, blocks);
    TakenOfOne(b, e);
  }

  lemma TakenOfOne(b: Block, e: Element)
    requires b.elements == [e] && ElementOk(e)
    ensures ElementName(e.tag).Success?
    ensures forall d, c :: d in [b] && c in d.elements ==> ElementName(c.tag).Success?
    ensures INITIAL.actions + RequestTaken([b]) == [Taken(b.isSet, e)]
  {
    ElementNameIsRead(e.tag);
    assert [b][1..] == [] && [e][1..] == [];
    assert AllTaken(b.isSet, [e]) == [Taken(b.isSet, e)] + AllTaken(b.isSet, [e][1..]);
    assert RequestTaken([b]) == AllTaken(b.isSet, [e]) + RequestTaken([b][1..]);
  }

  lemma SetOneFails(prefix: Option<string>, rootAttributes: seq<(string, string)>, tag: Tag, v: string)
    requires RequestOk(prefix, rootAttributes, SetOne(tag, v))
    requires !Readable(SetOne(tag, v)[0].elements[0].content)
    ensures Parse(P.Render(prefix, rootAttributes, SetOne(tag, v))).Failure?
  {
    var blocks := SetOne(tag, v);
    var (b, e) := (blocks[0], blocks[0].elements[0]);
    assert b in blocks && e in b.elements;
    RootIsTransparent(prefix, rootAttributes, blocks);
    BlocksAdd(INITIAL, prefix, blocks);
  }

  lemma ReadOne(a: Action, key: string)
    requires a.value.Some?
    ensures Lookup(ApplyAll(map[], [a]), key) == if key == a.key then a.value else None
  {
    assert [a][1..] == [];
    assert ApplyAll(map[], [a]) == map[a.key := a.value.value];
  }

  lemma TakenReadsBackIff(scope: seq<(string, string)>, e: Element, v: string)
    requires ElementOk(e) && ValueOf(e.content) == v
    ensures ElementName(e.tag).Success?
    ensures Lookup(ApplyAll(map[], [Taken(true, e)]), ClarkKey(Expanded(e.tag, scope).0, Expanded(e.tag, scope).1)) == Some(v) <==>
            KeepsNamespace(e.tag, scope) && Arrives(e.content)
  {
    TakenIsMeantIff(true, scope, e);
    ReadOne(Taken(true, e), ClarkKey(Expanded(e.tag, scope).0, Expanded(e.tag, scope).1));
  }

  /** Setting a property and reading it back gives the value that was meant exactly when the element
      keeps its namespace and the value is clean. */
  lemma SetReadsBackIff(prefix: Option<string>, rootAttributes: seq<(string, string)>, tag: Tag, v: string)
    requires RequestOk(prefix, rootAttributes, SetOne(tag, v)) && '<' !in v
    requires LocalName(tag.name) != "set" && LocalName(tag.name) != "remove" && LocalName(tag.name) != "prop"
    ensures var (ns, local) := Expanded(tag, rootAttributes);
            Lookup(After(map[], P.Render(prefix, rootAttributes, SetOne(tag, v))), ClarkKey(ns, local)) == Some(v) <==>
            KeepsNamespace(tag, rootAttributes) && Clean(v)
  {
    var blocks := SetOne(tag, v);
    var (b, e) := (blocks[0], blocks[0].elements[0]);
    assert b in blocks && e in b.elements && ElementOk(e);
    EscapedValueIff(v);
    if Readable(e.content) {
      SetOneIsTaken(prefix, rootAttributes, tag, v);
      TakenReadsBackIff(rootAttributes, e, v);
    } else {
      SetOneFails(prefix, rootAttributes, tag, v);
      assert !Clean(v) by {
        if Arrives(e.content) { ArrivesIsReadable(e.content); }
      }
    }
  }

  /** Two properties of one name, whose prefixes stand for different namespaces on an element around
      them, are different properties to the client and one to the server. */
  lemma InheritedPrefixesCollide(prefix: string, other: string, local: string, scope: seq<(string, string)>)
    requires ':' !in prefix && ':' !in other
    requires Attribute(scope, "xmlns:" + prefix).Some? && Attribute(scope, "xmlns:" + other).Some?
    requires Attribute(scope, "xmlns:" + prefix) != Attribute(scope, "xmlns:" + other)
    ensures var (first, second) := (Tag(QName(Some(prefix), local), []), Tag(QName(Some(other), local), []));
            Expanded(first, scope) != Expanded(second, scope) && ElementName(first) == ElementName(second)
  {
    SplitOnceAt(prefix, ':', local);
    SplitOnceAt(other, ':', local);
  }
}
