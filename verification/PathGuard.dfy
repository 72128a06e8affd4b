/** Resolution of write targets: the segment check, the canonical parent with its cache, and the
    guard that keeps every target strictly below the root. Request paths are given after
    percent-decoding. */
module PathGuard {
  import opened Prelude
  import opened Paths
  import opened LockRuns

  datatype ResolveTargetError = InvalidPath | ParentCanonicalizeFailed | TraversalBlocked

  function TrimSlashes(b: seq<byte>): (r: seq<byte>)
    ensures r == [] || r[0] != SLASH
  {
    if b != [] && b[0] == SLASH then TrimSlashes(b[1..]) else b
  }

  /** `resolve_write_target`: the root directory's components followed by the request's. */
  function ResolveWriteTarget(rootDir: Path, decoded: seq<byte>): Option<Path> {
    var trimmed := TrimSlashes(decoded);
    if trimmed == [] || trimmed[|trimmed| - 1] == SLASH then None
    else if exists n :: n in Pieces(trimmed) && (n == [DOT, DOT] || n == [DOT]) then None
    else Some(rootDir + Components(trimmed))
  }

  /** What `canonicalize` answers, on a file system that does not change. */
  type Canonicalizer = Path -> Option<Path>

  ghost predicate Faithful(canonicalize: Canonicalizer) {
    forall p :: canonicalize(p).Some? ==> Canonical(canonicalize(p).value)
  }

  lemma {:induction false} LastPieceOf(b: seq<byte>)
    requires b != [] && b[|b| - 1] != SLASH
    ensures Pieces(b)[|Pieces(b)| - 1] != []
  {
    if |b| > 1 {
      assert b[1..][|b[1..]| - 1] == b[|b| - 1];
      LastPieceOf(b[1..]);
    }
  }

  lemma {:induction false} FilterKeepsLast<T(!new)>(s: seq<T>, keep: T -> bool)
    requires s != [] && keep(s[|s| - 1])
    ensures Filter(s, keep) != []
    ensures Filter(s, keep)[|Filter(s, keep)| - 1] == s[|s| - 1]
  {
    if |s| > 1 {
      FilterKeepsLast(s[1..], keep);
    }
  }

  /** An accepted target ends in a proper file name: its path has a parent and a last component. */
  lemma AcceptedHasFileName(rootDir: Path, decoded: seq<byte>)
    requires ResolveWriteTarget(rootDir, decoded).Some?
    ensures var p := ResolveWriteTarget(rootDir, decoded).value;
            |p| > |rootDir| && ValidName(p[|p| - 1])
  {
    var trimmed := TrimSlashes(decoded);
    var pieces := Pieces(trimmed);
    var last := pieces[|pieces| - 1];
    assert last in pieces;
    LastPieceOf(trimmed);
    FilterKeepsLast(pieces, (n: Name) => n != [] && n != [DOT]);
    assert Components(trimmed)[|Components(trimmed)| - 1] == last;
  }

  /** `resolve_and_guard` without its cache. */
  function Resolve(rootDir: Path, root: Path, canonicalize: Canonicalizer, decoded: seq<byte>): Result<Path, ResolveTargetError> {
    match ResolveWriteTarget(rootDir, decoded)
    case None => Failure(InvalidPath)
    case Some(target) =>
      AcceptedHasFileName(rootDir, decoded);
      match canonicalize(target[..|target| - 1])
      case None => Failure(ParentCanonicalizeFailed)
      case Some(parent) =>
        if root <= parent then Success(parent + [target[|target| - 1]]) else Failure(TraversalBlocked)
  }

  lemma TrimOnce(b: seq<byte>)
    requires |b| > 1 && b[0] == SLASH && b[1] != SLASH
    ensures TrimSlashes(b) == b[1..]
  {
    assert b[1..][0] == b[1];
  }

  /** The bytes of a canonical path, with the leading slash that a request has. */
  lemma RequestBytes(rel: Path)
    requires Canonical(rel) && rel != []
    ensures var trimmed := TrimSlashes(Join(rel));
            trimmed != [] && trimmed[|trimmed| - 1] != SLASH && Pieces(trimmed) == rel
  {
    var tail := rel[0] + Join(rel[1..]);
    assert rel[0] in rel;
    assert Join(rel) == [SLASH] + tail && tail[0] == rel[0][0];
    TrimOnce(Join(rel));
    assert Join(rel)[1..] == tail;
    JoinEnds(rel);
    PiecesOfJoin(rel);
    assert Pieces([SLASH] + tail) == [[]] + Pieces(tail);
    assert ([[]] + rel)[1..] == rel && ([[]] + Pieces(tail))[1..] == Pieces(tail);
  }

  lemma CanonicalTarget(rootDir: Path, rel: Path)
    requires Canonical(rel) && rel != []
    ensures ResolveWriteTarget(rootDir, Join(rel)) == Some(rootDir + rel)
  {
    RequestBytes(rel);
    FilterAll(rel, (n: Name) => n != [] && n != [DOT]);
  }

  /** What happens to an accepted target. */
  lemma ResolveOf(rootDir: Path, root: Path, canonicalize: Canonicalizer, decoded: seq<byte>, above: Path, name: Name)
    requires ResolveWriteTarget(rootDir, decoded) == Some(above + [name])
    ensures Resolve(rootDir, root, canonicalize, decoded) ==
            match canonicalize(above)
            case None => Failure(ParentCanonicalizeFailed)
            case Some(parent) => if root <= parent then Success(parent + [name]) else Failure(TraversalBlocked)
  {
    var target := above + [name];
    assert target[..|target| - 1] == above && target[|target| - 1] == name;
  }

  /** Every canonical path below the root directory can be asked for: the bytes of `rel` and a last
      name resolve to that name below the canonical form of `rel`, as far as that lies below the
      root. */
  lemma CanonicalRequestResolves(rootDir: Path, root: Path, canonicalize: Canonicalizer, rel: Path, name: Name)
    requires Canonical(rel + [name])
    ensures Resolve(rootDir, root, canonicalize, Join(rel + [name])) ==
            match canonicalize(rootDir + rel)
            case None => Failure(ParentCanonicalizeFailed)
            case Some(parent) => if root <= parent then Success(parent + [name]) else Failure(TraversalBlocked)
  {
    CanonicalTarget(rootDir, rel + [name]);
    Assoc(rootDir, rel, [name]);
    ResolveOf(rootDir, root, canonicalize, Join(rel + [name]), rootDir + rel, name);
  }

  lemma {:induction false} JoinEnds(p: Path)
    requires Canonical(p) && p != []
    ensures Join(p) != [] && Join(p)[|Join(p)| - 1] != SLASH
  {
    assert p[0] in p;
    if |p| == 1 {
      assert Join(p) == [SLASH] + p[0];
    } else {
      forall n | n in p[1..] ensures ValidName(n) { assert n in p; }
      JoinEnds(p[1..]);
    }
  }

  /** Every accepted path is one valid component below a canonical directory at or below the
      root, hence strictly below the root, which is what the lock system's runs rely on. */
  lemma ResolvedIsBelowRoot(rootDir: Path, root: Path, canonicalize: Canonicalizer, decoded: seq<byte>)
    requires Faithful(canonicalize)
    requires Resolve(rootDir, root, canonicalize, decoded).Success?
    ensures var p := Resolve(rootDir, root, canonicalize, decoded).value;
            && StrictlyBelow(root, p)
            && ValidName(p[|p| - 1])
            && exists d :: canonicalize(d) == Some(p[..|p| - 1])
  {
    AcceptedHasFileName(rootDir, decoded);
    var target := ResolveWriteTarget(rootDir, decoded).value;
    var parent := canonicalize(target[..|target| - 1]).value;
    var p := parent + [target[|target| - 1]];
    assert p[..|p| - 1] == parent;
    assert root <= p && |root| < |p|;
    assert Canonical(p) by {
      forall n | n in p ensures ValidName(n) {
        if n in parent {}
      }
    }
  }

  /** The resolver with its cache of canonical parents. */
  class PathResolver {
    const rootDir: Path
    const root: Path
    const canonicalize: Canonicalizer
    var cache: map<Path, Path>

    /** Every cached answer is what `canonicalize` would give. */
    ghost predicate Valid()
      reads this
    {
      forall p :: p in cache ==> canonicalize(p) == Some(cache[p])
    }

    constructor (rootDir: Path, root: Path, canonicalize: Canonicalizer)
      ensures Valid()
      ensures this.rootDir == rootDir && this.root == root && this.canonicalize == canonicalize
    {
      this.rootDir, this.root, this.canonicalize := rootDir, root, canonicalize;
      cache := map[];
    }

    /** `resolve_and_guard`: after any history of calls it answers like the uncached form. */
    method ResolveAndGuard(decoded: seq<byte>) returns (r: Result<Path, ResolveTargetError>)
      requires Valid()
      modifies this`cache
      ensures Valid()
      ensures r == Resolve(rootDir, root, canonicalize, decoded)
    {
      var target := ResolveWriteTarget(rootDir, decoded);
      if target.None? { return Failure(InvalidPath); }
      AcceptedHasFileName(rootDir, decoded);
      var path := target.value;
      var parent := path[..|path| - 1];
      var parentCanonical;
      if parent in cache {
        parentCanonical := cache[parent];
      } else {
        var answer := canonicalize(parent);
        if answer.None? { return Failure(ParentCanonicalizeFailed); }
        parentCanonical := answer.value;
        cache := cache[parent := parentCanonical];
      }
      if !(root <= parentCanonical) { return Failure(TraversalBlocked); }
      return Success(parentCanonical + [path[|path| - 1]]);
    }
  }
}
