/** Canonical file-system paths, their byte form, and the ancestor test on bytes. */
module Paths {
  import opened Prelude

  type byte = b: int | 0 <= b < 256

  const SLASH: byte := 0x2F
  const DOT: byte := 0x2E

  /** One path component, as the operating system's raw bytes. */
  type Name = seq<byte>

  /** The components below `/`, outermost first. */
  type Path = seq<Name>

  predicate ValidName(n: Name) {
    n != [] && SLASH !in n && n != [DOT] && n != [DOT, DOT]
  }

  predicate Canonical(p: Path) {
    forall n :: n in p ==> ValidName(n)
  }

  function Join(p: Path): seq<byte> {
    if p == [] then [] else [SLASH] + p[0] + Join(p[1..])
  }

  /** The byte string of an absolute canonical path. */
  function Render(p: Path): (b: seq<byte>)
    ensures b != [] && b[0] == SLASH
  {
    if p == [] then [SLASH] else Join(p)
  }

  /** The pieces between slashes; there is one more piece than there are slashes. */
  function Pieces(b: seq<byte>): (r: seq<Name>)
    ensures r != []
    ensures forall n :: n in r ==> SLASH !in n
  {
    if b == [] then [[]]
    else
      var rest := Pieces(b[1..]);
      if b[0] == SLASH then [[]] + rest else [[b[0]] + rest[0]] + rest[1..]
  }

  /** `Path::components` of the standard library: empty pieces and `.` vanish. */
  function Components(b: seq<byte>): Path {
    Filter(Pieces(b), n => n != [] && n != [DOT])
  }

  predicate Absolute(b: seq<byte>) {
    b != [] && b[0] == SLASH
  }

  /** `Path::starts_with` of the standard library: a whole-component prefix. */
  predicate StartsWith(path: seq<byte>, prefix: seq<byte>) {
    Absolute(path) == Absolute(prefix) && Components(prefix) <= Components(path)
  }

  /** `is_ancestor_of`: the proper-ancestor test, on the bytes of two paths. */
  predicate IsAncestorOf(ancestor: seq<byte>, target: seq<byte>) {
    if ancestor == [] || |ancestor| >= |target| then false
    else if !StartsWith(target, ancestor) then false
    else if ancestor == [SLASH] then true
    else target[|ancestor|] == SLASH
  }

  /** `Path::parent`. */
  function Parent(p: Path): (r: Option<Path>)
    ensures r.Some? <==> p != []
    ensures r.Some? ==> r.value < p && |r.value| + 1 == |p|
  {
    if p == [] then None else Some(p[..|p| - 1])
  }

  // ---- The byte test is the strict component prefix --------------------------------

  lemma {:induction false} PiecesOfName(n: Name, rest: seq<byte>)
    requires SLASH !in n
    requires rest == [] || rest[0] == SLASH
    ensures Pieces(n + rest) == [n] + Pieces(rest)[1..]
  {
    if n == [] {
      assert n + rest == rest;
      assert Pieces(rest) == [[]] + Pieces(rest)[1..];
    } else {
      assert n[0] in n;
      assert (n + rest)[1..] == n[1..] + rest;
      PiecesOfName(n[1..], rest);
      assert [n[0]] + n[1..] == n;
    }
  }

  lemma {:induction false} PiecesOfJoin(p: Path)
    requires Canonical(p)
    ensures Pieces(Join(p)) == [[]] + p
  {
    if p != [] {
      var tail := p[0] + Join(p[1..]);
      assert Join(p) == [SLASH] + tail;
      assert Join(p)[1..] == tail;
      assert p[0] in p;
      PiecesOfName(p[0], Join(p[1..]));
      forall n | n in p[1..] ensures ValidName(n) { assert n in p; }
      PiecesOfJoin(p[1..]);
    }
  }

  /** Reading a canonical path back from its bytes recovers its components. */
  lemma {:induction false} ComponentsOfRender(p: Path)
    requires Canonical(p)
    ensures Components(Render(p)) == p
  {
    var keep := (n: Name) => n != [] && n != [DOT];
    if p == [] {
      var two: seq<Name> := [[], []];
      assert Pieces([SLASH]) == two by { assert [SLASH][1..] == []; }
      assert two[1..] == [[]];
      assert Filter(two, keep) == [];
    } else {
      PiecesOfJoin(p);
      assert ([[]] + p)[1..] == p;
      assert Filter([[]] + p, keep) == Filter(p, keep);
      FilterAll(p, keep);
    }
  }

  lemma {:induction false} JoinConcat(p: Path, q: Path)
    ensures Join(p + q) == Join(p) + Join(q)
  {
    if p == [] {
      assert p + q == q;
    } else {
      assert (p + q)[1..] == p[1..] + q;
      JoinConcat(p[1..], q);
    }
  }

  /** Below an ancestor, its bytes are followed by a slash; the root's single slash already is one. */
  lemma BytesBelow(a: Path, t: Path)
    requires Canonical(t) && a < t
    ensures |Render(a)| < |Render(t)|
    ensures a != [] ==> Render(a) != [SLASH] && Render(t)[|Render(a)|] == SLASH
  {
    var below := t[|a|..];
    assert t == a + below;
    JoinConcat(a, below);
    assert ValidName(below[0]) by { assert below[0] in t; }
    if a != [] {
      assert ValidName(a[0]) by { assert a[0] == t[0]; }
    }
  }

  /** On canonical paths the byte test of `is_ancestor_of` is exactly "strict component prefix". */
  lemma AncestorIsStrictPrefix(a: Path, t: Path)
    requires Canonical(a) && Canonical(t)
    ensures IsAncestorOf(Render(a), Render(t)) <==> a < t
  {
    ComponentsOfRender(a);
    ComponentsOfRender(t);
    if a < t {
      BytesBelow(a, t);
      assert StartsWith(Render(t), Render(a));
    } else if a <= t {
      assert a == t;
    }
  }

  /** The byte test, run on two canonical paths. */
  method TestAncestor(ancestor: Path, target: Path) returns (r: bool)
    requires Canonical(ancestor) && Canonical(target)
    ensures r <==> ancestor < target
  {
    AncestorIsStrictPrefix(ancestor, target);
    r := IsAncestorOf(Render(ancestor), Render(target));
  }
}
