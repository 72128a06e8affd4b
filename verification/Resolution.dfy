/** Two ways from a request path to a file-system path: `resolve_and_guard`, by which locks are kept
    and looked up, and `resolve_existing`, by which most handlers act. When they agree. */
module Resolution {
  import opened Prelude
  import opened Text
  import opened Paths
  import opened PathGuard
  import opened Percent
  import opened FileTree

  /** Where a name in a canonical directory leads: to itself or through symbolic links to another
      node, to a place where something can be created, or nowhere. */
  datatype Lead = Absent | Leads(node: Path) | Dangling(place: Path) | Broken

  /** The file system as path resolution sees it, and the root directory as given and in canonical
      form; `absolute` says whether it was given as an absolute path. */
  datatype Env = Env(
    rootDir: Path,
    absolute: bool,
    root: Path,
    lead: (Path, Name) -> Lead,
    isDir: Path -> bool
  )

  function Lookup(env: Env, dir: Path, n: Name): Option<Path> {
    match env.lead(dir, n)
    case Leads(node) => Some(node)
    case _ => None
  }

  /** `canonicalize`: name by name from the top. */
  function Canonicalize(env: Env, p: Path): Option<Path>
    decreases |p|
  {
    if p == [] then Some([])
    else
      match Canonicalize(env, Up(p))
      case None => None
      case Some(dir) =>
        if !env.isDir(dir) then None
        else if Last(p) == [DOT, DOT] then Some(if dir == [] then [] else Up(dir))
        else Lookup(env, dir, Last(p))
  }

  /** The path of a node, without links on the way. */
  ghost predicate Real(env: Env, p: Path)
    decreases |p|
  {
    p == [] || (Real(env, Up(p)) && env.isDir(Up(p)) && env.lead(Up(p), Last(p)) == Leads(p))
  }

  ghost predicate LeadsOk(env: Env) {
    && (forall dir, n :: env.lead(dir, n).Leads? ==> Canonical(env.lead(dir, n).node))
    && (forall dir, n :: env.lead(dir, n).Dangling? ==> IsVacant(env, env.lead(dir, n).place))
  }

  ghost predicate IsVacant(env: Env, p: Path) {
    p != [] && Canonical(p) && env.lead(Up(p), Last(p)).Absent?
  }

  ghost predicate EnvOk(env: Env) {
    && LeadsOk(env) && (forall dir, n :: env.lead(dir, n).Leads? ==> Real(env, env.lead(dir, n).node))
    && Canonical(env.root) && env.isDir(env.root) && Canonicalize(env, env.rootDir) == Some(env.root)
  }

  lemma {:induction false} CanonicalizeIsFaithful(env: Env, p: Path)
    requires LeadsOk(env)
    ensures Canonicalize(env, p).Some? ==> Canonical(Canonicalize(env, p).value)
    decreases |p|
  {
    if p != [] {
      CanonicalizeIsFaithful(env, Up(p));
      if Canonicalize(env, Up(p)).Some? {
        var dir := Canonicalize(env, Up(p)).value;
        if dir != [] { assert forall n :: n in Up(dir) ==> n in dir; }
      }
    }
  }

  lemma {:induction false} RealIsCanonical(env: Env, p: Path)
    requires Real(env, p) && Canonical(p)
    ensures Canonicalize(env, p) == Some(p)
    decreases |p|
  {
    if p != [] {
      RealIsCanonical(env, Up(p));
      assert ValidName(Last(p));
    }
  }

  lemma {:induction false} CanonicalizeIsReal(env: Env, p: Path)
    requires EnvOk(env)
    ensures Canonicalize(env, p).Some? ==> Real(env, Canonicalize(env, p).value)
    decreases |p|
  {
    if p != [] { CanonicalizeIsReal(env, Up(p)); }
  }

  predicate IsSlash(c: char) {
    c == '/'
  }

  /** A request path that ends in `/` or `/.` must name a directory. */
  predicate AsksForDirectory(trimmed: seq<byte>) {
    trimmed != [] &&
    var last := Pieces(trimmed)[|Pieces(trimmed)| - 1];
    last == [] || last == [DOT]
  }

  /** `resolve_existing`. */
  function Existing(env: Env, uri: string): Option<Path> {
    var trimmed := TrimSlashes(Decode(uri));
    match Canonicalize(env, env.rootDir + Components(trimmed))
    case None => None
    case Some(p) =>
      if (AsksForDirectory(trimmed) && !env.isDir(p)) || !(env.root <= p) then None else Some(p)
  }

  /** `resolve_and_guard` on a path as it is. */
  function Guarded(env: Env, uri: string): Result<Path, ResolveTargetError> {
    Resolve(env.rootDir, env.root, p => Canonicalize(env, p), Decode(uri))
  }

  /** `resolve_and_guard` as the enforcement layer and LOCK call it, after trimming slashes. */
  function LockKey(env: Env, uri: string): Result<Path, ResolveTargetError> {
    Guarded(env, TrimEnd(uri, IsSlash))
  }

  /** The destination as it is spelled below the root directory; a relative root directory gives a
      relative path, which no canonical path equals. */
  function Spelled(env: Env, destination: string): Option<Path> {
    if env.absolute then ResolveWriteTarget(env.rootDir, Decode(destination)) else None
  }

  // ---- Slashes at the end make no difference to the components ---------------------------------

  lemma {:induction false} ComponentsOfTrimmed(b: seq<byte>)
    ensures Components(TrimSlashes(b)) == Components(b)
  {
    if b != [] && b[0] == SLASH {
      ComponentsOfTrimmed(b[1..]);
      assert Pieces(b) == [[]] + Pieces(b[1..]);
      FilterConcat([[]], Pieces(b[1..]), (n: Name) => n != [] && n != [DOT]);
    }
  }

  lemma {:induction false} PiecesOfSlashEnd(b: seq<byte>)
    ensures Pieces(b + [SLASH]) == Pieces(b) + [[]]
  {
    if b == [] {
      assert [SLASH][1..] == [] && b + [SLASH] == [SLASH];
    } else {
      assert (b + [SLASH])[1..] == b[1..] + [SLASH];
      PiecesOfSlashEnd(b[1..]);
    }
  }

  lemma ComponentsOfSlashEnd(b: seq<byte>)
    ensures Components(b + [SLASH]) == Components(b)
  {
    PiecesOfSlashEnd(b);
    FilterConcat(Pieces(b), [[]], (n: Name) => n != [] && n != [DOT]);
  }

  lemma {:induction false} ComponentsOfUri(uri: string)
    ensures Components(TrimSlashes(Decode(uri))) == Components(TrimSlashes(Decode(TrimEnd(uri, IsSlash))))
    decreases |uri|
  {
    if uri != "" && uri[|uri| - 1] == '/' {
      var u := uri[..|uri| - 1];
      assert uri == u + "/";
      DecodeSlashEnd(u);
      ComponentsOfTrimmed(Decode(uri));
      ComponentsOfSlashEnd(Decode(u));
      ComponentsOfTrimmed(Decode(u));
      ComponentsOfUri(u);
    }
  }

  lemma {:induction false} PiecesOfDotEnd(b: seq<byte>)
    ensures Pieces(b + [SLASH, DOT]) == Pieces(b) + [[DOT]]
  {
    if b == [] {
      assert [SLASH, DOT][1..] == [DOT] && b + [SLASH, DOT] == [SLASH, DOT] && [DOT][1..] == [];
      var none: seq<Name> := [[]];
      assert Pieces([DOT]) == [[DOT] + []] + none[1..];
      assert [DOT] + [] == [DOT];
    } else {
      assert (b + [SLASH, DOT])[1..] == b[1..] + [SLASH, DOT];
      PiecesOfDotEnd(b[1..]);
    }
  }

  /** The pieces of a canonical path, and of one with `/` or `/.` at its end. */
  lemma PiecesOfRequest(rel: Path, end: seq<byte>, trimmed: seq<byte>)
    requires Canonical(rel) && rel != [] && end in {[], [SLASH], [SLASH, DOT]} && trimmed == TrimSlashes(Join(rel) + end)
    ensures Components(trimmed) == rel && (AsksForDirectory(trimmed) <==> end != [])
  {
    RequestBytes(rel);
    var b := TrimSlashes(Join(rel));
    TrimKeepsEnd(Join(rel), end);
    FilterAll(rel, (n: Name) => n != [] && n != [DOT]);
    assert ValidName(rel[|rel| - 1]);
    if end == [] {
      assert b + end == b;
    } else if end == [SLASH] {
      PiecesOfSlashEnd(b);
      FilterConcat(rel, [[]], (n: Name) => n != [] && n != [DOT]);
    } else {
      PiecesOfDotEnd(b);
      FilterConcat(rel, [[DOT]], (n: Name) => n != [] && n != [DOT]);
    }
  }

  lemma {:induction false} TrimKeepsEnd(b: seq<byte>, end: seq<byte>)
    requires TrimSlashes(b) != []
    ensures TrimSlashes(b + end) == TrimSlashes(b) + end
  {
    if b[0] == SLASH {
      assert (b + end)[1..] == b[1..] + end;
      TrimKeepsEnd(b[1..], end);
    }
  }

  /** A request for a canonical path finds the node it leads to, if that lies at or below the root; with
      `/` or `/.` at its end it finds directories only. */
  lemma ExistingOfPath(env: Env, uri: string, rel: Path, end: seq<byte>)
    requires Canonical(rel) && rel != [] && end in {[], [SLASH], [SLASH, DOT]} && Decode(uri) == Join(rel) + end
    ensures Existing(env, uri) ==
            match Canonicalize(env, env.rootDir + rel)
            case None => None
            case Some(p) => if env.root <= p && (end != [] ==> env.isDir(p)) then Some(p) else None
  {
    PiecesOfRequest(rel, end, TrimSlashes(Decode(uri)));
  }

  /** `..` leads to the directory above, and a path only leads through directories. */
  lemma CanonicalizeStep(env: Env, p: Path, n: Name)
    ensures Canonicalize(env, p + [[DOT, DOT]]) ==
            match Canonicalize(env, p)
            case None => None
            case Some(dir) => if !env.isDir(dir) then None else if dir == [] then Some([]) else Some(dir[..|dir| - 1])
    ensures n != [DOT, DOT] ==>
              Canonicalize(env, p + [n]) ==
              match Canonicalize(env, p)
              case None => None
              case Some(dir) => if env.isDir(dir) && env.lead(dir, n).Leads? then Some(env.lead(dir, n).node) else None
  {
    assert Up(p + [n]) == p && Last(p + [n]) == n;
    assert Up(p + [[DOT, DOT]]) == p && Last(p + [[DOT, DOT]]) == [DOT, DOT];
  }

  // ---- When the key is the node ---------------------------------------------------------------

  /** The request path, trimmed and decoded, has no `.` and no `..` segment, is not empty and does not
      end in an escaped slash. */
  predicate Plain(uri: string) {
    var trimmed := TrimSlashes(Decode(TrimEnd(uri, IsSlash)));
    && trimmed != [] && trimmed[|trimmed| - 1] != SLASH
    && [DOT] !in Pieces(trimmed) && [DOT, DOT] !in Pieces(trimmed)
  }

  /** The path below the root directory that a plain request names. */
  function Named(env: Env, uri: string): (p: Path)
    requires Plain(uri)
    ensures p != [] && ValidName(Last(p))
    ensures ResolveWriteTarget(env.rootDir, Decode(TrimEnd(uri, IsSlash))) == Some(p)
  {
    var decoded := Decode(TrimEnd(uri, IsSlash));
    assert ResolveWriteTarget(env.rootDir, decoded).Some?;
    AcceptedHasFileName(env.rootDir, decoded);
    env.rootDir + Components(TrimSlashes(decoded))
  }

  lemma PlainIffAccepted(env: Env, uri: string)
    ensures ResolveWriteTarget(env.rootDir, Decode(TrimEnd(uri, IsSlash))).Some? <==> Plain(uri)
  {
  }

  /** The last name of the path is no symbolic link. */
  predicate NotALink(env: Env, p: Path)
    requires p != []
  {
    match Canonicalize(env, Up(p))
    case None => false
    case Some(dir) => Lookup(env, dir, Last(p)) == Some(dir + [Last(p)])
  }

  lemma KeyOfPlain(env: Env, uri: string)
    ensures !Plain(uri) ==> LockKey(env, uri) == Failure(InvalidPath)
    ensures Plain(uri) ==>
              LockKey(env, uri) ==
              match Canonicalize(env, Up(Named(env, uri)))
              case None => Failure(ParentCanonicalizeFailed)
              case Some(dir) =>
                if env.root <= dir then Success(dir + [Last(Named(env, uri))]) else Failure(TraversalBlocked)
  {
    PlainIffAccepted(env, uri);
    if Plain(uri) {
      var p := Named(env, uri);
      assert p == Up(p) + [Last(p)];
      ResolveOf(env.rootDir, env.root, q => Canonicalize(env, q), Decode(TrimEnd(uri, IsSlash)), Up(p), Last(p));
    }
  }

  lemma ExistingOfPlain(env: Env, uri: string)
    requires Plain(uri)
    ensures Existing(env, uri).Some? ==> Canonicalize(env, Named(env, uri)) == Existing(env, uri)
    ensures Existing(env, uri).Some? ==> env.root <= Existing(env, uri).value
  {
    ComponentsOfUri(uri);
  }

  /** The key under which a path is locked and looked up is the node that `resolve_existing` finds
      exactly when the request path is plain and its last name is no symbolic link. */
  lemma KeyIsNodeIff(env: Env, uri: string, node: Path)
    requires EnvOk(env) && Existing(env, uri) == Some(node) && node != env.root
    ensures LockKey(env, uri) == Success(node) <==> Plain(uri) && NotALink(env, Named(env, uri))
  {
    KeyOfPlain(env, uri);
    if Plain(uri) {
      ExistingOfPlain(env, uri);
      var p := Named(env, uri);
      var dir := Canonicalize(env, Up(p)).value;
      assert Last(p) != [DOT, DOT];
      assert Lookup(env, dir, Last(p)) == Some(node);
      if node == dir + [Last(p)] {
        RootAbove(env.root, dir, Last(p));
      }
    }
  }

  lemma RootAbove(root: Path, dir: Path, n: Name)
    requires root <= dir + [n] && root != dir + [n]
    ensures root <= dir
  {
    assert root == (dir + [n])[..|root|];
    assert (dir + [n])[..|dir| + 1] == dir + [n];
  }

  /** A lock key is a canonical path strictly below the root. */
  lemma KeyIsBelowRoot(env: Env, uri: string)
    requires EnvOk(env) && Guarded(env, uri).Success?
    ensures env.root < Guarded(env, uri).value && Canonical(Guarded(env, uri).value)
  {
    var canonicalize := p => Canonicalize(env, p);
    forall p ensures canonicalize(p).Some? ==> Canonical(canonicalize(p).value) {
      CanonicalizeIsFaithful(env, p);
    }
    ResolvedIsBelowRoot(env.rootDir, env.root, canonicalize, Decode(uri));
  }

  lemma ExistingIsCanonical(env: Env, uri: string)
    requires EnvOk(env) && Existing(env, uri).Some?
    ensures Canonical(Existing(env, uri).value) && env.root <= Existing(env, uri).value
  {
    CanonicalizeIsFaithful(env, env.rootDir + Components(TrimSlashes(Decode(uri))));
  }

  /** A path without a slash at its end is not changed by trimming, and the guard accepts no other. */
  lemma GuardedIsKey(env: Env, uri: string)
    requires Guarded(env, uri).Success? || !EndsInSlash(uri)
    ensures Guarded(env, uri) == LockKey(env, uri)
  {
    GuardedIsTrimmed(env, uri);
  }

  lemma GuardedIsTrimmed(env: Env, uri: string)
    requires Guarded(env, uri).Success? || !EndsInSlash(uri)
    ensures TrimEnd(uri, IsSlash) == uri
  {
    if Guarded(env, uri).Success? { GuardedHasNoSlash(env, uri); }
    TrimEndKeeps(uri);
  }

  lemma GuardedPath(env: Env, uri: string, key: Path)
    requires Guarded(env, uri) == Success(key)
    ensures Plain(uri)
    ensures var p := Named(env, uri);
            key != [] && Last(key) == Last(p) && Canonicalize(env, Up(p)) == Some(Up(key))
  {
    GuardedIsKey(env, uri);
    KeyOfPlain(env, uri);
    var n := Last(Named(env, uri));
    var dir := Canonicalize(env, Up(Named(env, uri))).value;
    assert Up(dir + [n]) == dir && Last(dir + [n]) == n;
  }

  lemma GuardedHasNoSlash(env: Env, uri: string)
    requires Guarded(env, uri).Success?
    ensures !EndsInSlash(uri)
  {
    if EndsInSlash(uri) { SlashIsNotGuarded(env, uri, uri[..|uri| - 1]); }
  }

  lemma TrimEndKeeps(uri: string)
    requires !EndsInSlash(uri)
    ensures TrimEnd(uri, IsSlash) == uri
  {
  }

  lemma SlashIsNotGuarded(env: Env, uri: string, u: string)
    requires uri == u + "/"
    ensures Guarded(env, uri) == Failure(InvalidPath)
  {
    DecodeSlashEnd(u);
    var decoded := Decode(uri);
    TrimmedEndsInSlash(Decode(u));
    SlashIsNotAccepted(env.rootDir, decoded);
  }

  lemma SlashIsNotAccepted(rootDir: Path, decoded: seq<byte>)
    requires var t := TrimSlashes(decoded); t == [] || t[|t| - 1] == SLASH
    ensures ResolveWriteTarget(rootDir, decoded) == None
  {
  }

  lemma {:induction false} TrimmedEndsInSlash(b: seq<byte>)
    ensures var t := TrimSlashes(b + [SLASH]); t == [] || t[|t| - 1] == SLASH
  {
    if b == [] {
      assert b + [SLASH] == [SLASH] && [SLASH][1..] == [];
    } else if b[0] == SLASH {
      assert (b + [SLASH])[1..] == b[1..] + [SLASH];
      TrimmedEndsInSlash(b[1..]);
    }
  }

  // ---- LOCK and UNLOCK ---------------------------------------------------------------------------

  /** UNLOCK looks for the lock where LOCK has put it exactly when the resource still exists under the
      key, no link has taken its place, and a path with a slash at its end names a directory. */
  lemma UnlockFindsLockIff(env: Env, uri: string, key: Path)
    requires EnvOk(env) && LockKey(env, uri) == Success(key)
    ensures Existing(env, uri) == Some(key) <==>
            && env.isDir(Up(key)) && Lookup(env, Up(key), Last(key)) == Some(key)
            && (EndsInSlash(uri) ==> env.isDir(key))
  {
    KeyOfPlain(env, uri);
    KeyIsBelowRoot(env, TrimEnd(uri, IsSlash));
    var p := Named(env, uri);
    var dir := Canonicalize(env, Up(p)).value;
    assert Up(key) == dir && Last(key) == Last(p);
    ComponentsOfUri(uri);
    assert Canonicalize(env, p) == if env.isDir(dir) then Lookup(env, dir, Last(p)) else None;
    DirectoryIff(uri);
  }

  lemma DirectoryIff(uri: string)
    requires Plain(uri)
    ensures AsksForDirectory(TrimSlashes(Decode(uri))) <==> EndsInSlash(uri)
  {
    if EndsInSlash(uri) {
      SlashAsks(uri);
    } else {
      var trimmed := TrimSlashes(Decode(uri));
      LastPieceOf(trimmed);
      var pieces := Pieces(trimmed);
      assert pieces[|pieces| - 1] in pieces;
    }
  }

  lemma SlashAsks(uri: string)
    requires Plain(uri) && EndsInSlash(uri)
    ensures AsksForDirectory(TrimSlashes(Decode(uri)))
  {
    var u := uri[..|uri| - 1];
    assert uri == u + "/";
    DecodeSlashEnd(u);
    var b := Decode(u);
    TrimNotEmpty(u);
    TrimBeforeSlash(b);
    PiecesOfSlashEnd(TrimSlashes(b));
  }

  lemma {:induction false} TrimNotEmpty(u: string)
    requires TrimSlashes(Decode(TrimEnd(u, IsSlash))) != []
    ensures TrimSlashes(Decode(u)) != []
    decreases |u|
  {
    if EndsInSlash(u) {
      var v := u[..|u| - 1];
      assert u == v + "/";
      TrimNotEmpty(v);
      DecodeSlashEnd(v);
      TrimBeforeSlash(Decode(v));
    }
  }

  lemma {:induction false} TrimBeforeSlash(b: seq<byte>)
    requires TrimSlashes(b) != []
    ensures TrimSlashes(b + [SLASH]) == TrimSlashes(b) + [SLASH]
  {
    if b[0] == SLASH {
      assert (b + [SLASH])[1..] == b[1..] + [SLASH];
      TrimBeforeSlash(b[1..]);
    }
  }
}
