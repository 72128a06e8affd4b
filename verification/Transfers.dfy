/** From a COPY or MOVE request to what the handler is asked to do, and the test that is meant to
    refuse a destination that is its own source. */
module Transfers {
  import opened Prelude
  import opened Paths
  import opened FileTree
  import opened PathGuard
  import opened Percent
  import opened Resolution
  import opened CopyMove
  import H = HandlerWrites

  function TransferOf(env: Env, isMove: bool, overwrite: bool, shallow: bool, uri: string, destination: string): Option<Transfer> {
    match (Existing(env, uri), Guarded(env, destination))
    case (Some(source), Success(dest)) =>
      Some(Transfer(isMove, overwrite, shallow, source, Spelled(env, destination), dest))
    case _ => None
  }

  /** The handler starts to write exactly when the destination is not spelled as the source and does not
      exist, or may be overwritten: the checks that `MoveOrCopy` answers 403 and 412 for. */
  lemma StartsIff(env: Env, req: H.HttpRequest, isMove: bool)
    requires EnvOk(env) && req.destination.Some?
    ensures var t := TransferOf(env, isMove, req.overwrite, req.shallow, req.uri, req.destination.value);
            H.JobOf(env, req) ==
            if t.Some? && t.value.target != Some(t.value.source)
               && (env.lead(Up(t.value.dest), Last(t.value.dest)).Leads? ==> t.value.overwrite)
            then Some(H.Job(t.value.source, t.value.dest)) else None
  {
    if Guarded(env, req.destination.value).Success? { KeyIsBelowRoot(env, req.destination.value); }
  }

  /** A destination that is the source is refused exactly when the root directory is given as an
      absolute path and the destination's directory is spelled by its canonical path. */
  lemma SameNodeRefusedIff(env: Env, destination: string, source: Path)
    requires EnvOk(env) && Guarded(env, destination) == Success(source)
    ensures Plain(destination)
    ensures Spelled(env, destination) == Some(source) <==>
            env.absolute && Canonicalize(env, Up(Named(env, destination))) == Some(Up(Named(env, destination)))
  {
    GuardedPath(env, destination, source);
    SpelledIsNamed(env, destination);
    var p := Named(env, destination);
    PathsWithOneName(p, source);
  }

  lemma PathsWithOneName(p: Path, q: Path)
    requires p != [] && q != [] && Last(p) == Last(q)
    ensures p == q <==> Up(p) == Up(q)
  {
    assert p == Up(p) + [Last(p)] && q == Up(q) + [Last(q)];
  }

  lemma SpelledIsNamed(env: Env, destination: string)
    requires Guarded(env, destination).Success? && Plain(destination)
    ensures ResolveWriteTarget(env.rootDir, Decode(destination)) == Some(Named(env, destination))
  {
    GuardedIsTrimmed(env, destination);
  }

  lemma SelfTransfer(env: Env, uri: string, node: Path)
    requires EnvOk(env) && !env.absolute && Existing(env, uri) == Some(node) && node != env.root
    requires Plain(uri) && NotALink(env, Named(env, uri)) && !EndsInSlash(uri)
    ensures TransferOf(env, false, true, false, uri, uri) == Some(Transfer(false, true, false, node, None, node))
  {
    KeyIsNodeIff(env, uri, node);
    GuardedIsKey(env, uri);
  }

  lemma SelfTransferProceeds(fs: Files, t: Transfer)
    requires t == Transfer(false, true, false, t.source, None, t.source) && t.source != []
    requires WellFormed(fs) && t.source in fs && fs[t.source].File?
    ensures Attempts(fs, t) && Proceeds(fs, t)
  {
    assert HasParent(fs, t.source);
    OneFileNoClash(fs, t.source);
  }

  lemma OneFileNoClash(fs: Files, node: Path)
    requires WellFormed(fs) && node in fs && fs[node].File?
    ensures NoClash(fs, node, node)
  {
    forall q | q in fs && IsImage(fs, node, node, q)
      ensures fs[q].Dir? == fs[Origin(node, node, q)].Dir? && !fs[q].Symlink?
    {
      FileIsLeaf(fs, node, q);
      assert Origin(node, node, q) == q;
    }
  }

  lemma SelfTransferEmpties(fs: Files, fs': Files, t: Transfer)
    requires t == Transfer(false, true, false, t.source, None, t.source)
    requires WellFormed(fs) && t.source in fs && fs[t.source].File? && Placed(fs, fs', t)
    ensures t.source in fs' && fs'[t.source] == File([])
  {
    CopiedOntoSelf(fs, fs', t.source, t.source);
  }

  /** With a root directory given as a relative path, as by default, no such request is refused: a file
      that is copied to its own path gets through, and is empty afterwards. */
  lemma SelfCopyEmptiesFile(env: Env, fs: Files, fs': Files, uri: string, node: Path)
    requires EnvOk(env) && !env.absolute && Existing(env, uri) == Some(node) && node != env.root
    requires Plain(uri) && NotALink(env, Named(env, uri)) && !EndsInSlash(uri)
    requires WellFormed(fs) && node in fs && fs[node].File?
    ensures var t := TransferOf(env, false, true, false, uri, uri);
            && t.Some? && t.value.source == t.value.dest == node && Attempts(fs, t.value) && Proceeds(fs, t.value)
            && (Placed(fs, fs', t.value) ==> node in fs' && fs'[node] == File([]))
  {
    SelfTransfer(env, uri, node);
    var t := TransferOf(env, false, true, false, uri, uri).value;
    assert node != [] by {
      ExistingIsCanonical(env, uri);
    }
    SelfTransferProceeds(fs, t);
    if Placed(fs, fs', t) { SelfTransferEmpties(fs, fs', t); }
  }
}
