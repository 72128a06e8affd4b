/** COPY and MOVE (sections 9.8 and 9.9 of RFC 4918) on a file tree: the stack loop of the
    recursive copy, and the end state of the two handlers. */
module CopyMove {
  import opened Prelude
  import opened Paths
  import opened FileTree

  datatype IoError = AlreadyExists | OtherError

  /** Where `q`, at or below `dest`, comes from at or below `src`. */
  function Origin(src: Path, dest: Path, q: Path): Path
    requires dest <= q
  {
    src + q[|dest|..]
  }

  function Image(src: Path, dest: Path, p: Path): Path
    requires src <= p
  {
    dest + p[|src|..]
  }

  predicate Disjoint(src: Path, dest: Path) {
    !(src <= dest) && !(dest <= src)
  }

  /** `q` is the image of something below `src` that is not a symbolic link. */
  predicate IsImage(fs: Files, src: Path, dest: Path, q: Path) {
    dest <= q && Origin(src, dest, q) in fs && !fs[Origin(src, dest, q)].Symlink?
  }

  /** Neither contains the other, unless they are one. */
  predicate Separate(src: Path, dest: Path) {
    src == dest || Disjoint(src, dest)
  }

  /** What copying one node to a place leaves there: a file copied onto itself is emptied, because the
      place is truncated before the source is read. */
  function CopiedTo(fs: Files, p: Path, q: Path): Node
    requires p in fs
  {
    if p == q && fs[p].File? then File([]) else fs[p]
  }

  /** What arrives of a source node when `src` is copied to `dest`. */
  function Arriving(fs: Files, src: Path, dest: Path, p: Path): Node
    requires p in fs
  {
    if src == dest && fs[p].File? then File([]) else fs[p]
  }

  /** `fs'` is `fs` with everything at and below `src`, except symbolic links, arrived at the
      matching place at and below `dest`, and nothing else changed. */
  ghost predicate IsCopy(fs: Files, fs': Files, src: Path, dest: Path) {
    forall q ::
      if IsImage(fs, src, dest, q) then q in fs' && fs'[q] == Arriving(fs, src, dest, Origin(src, dest, q))
      else (q in fs' <==> q in fs) && (q in fs ==> fs'[q] == fs[q])
  }

  /** Nothing at or below the destination clashes in kind with what will be copied there. */
  ghost predicate NoClash(fs: Files, src: Path, dest: Path) {
    forall q :: q in fs && IsImage(fs, src, dest, q) ==>
      fs[q].Dir? == fs[Origin(src, dest, q)].Dir? && !fs[q].Symlink?
  }

  /** No place of `now` that something will be copied to is a symbolic link. */
  predicate NoLinkInTheWay(fs: Files, now: Files, src: Path, dest: Path) {
    forall q :: q in now && IsImage(fs, src, dest, q) ==> !now[q].Symlink?
  }

  /** Outside `dest` nothing has changed. */
  ghost predicate SameOutside(fs: Files, fs': Files, dest: Path) {
    forall q :: !(dest <= q) ==> (q in fs' <==> q in fs) && (q in fs ==> fs'[q] == fs[q])
  }

  /** The copy when only the sources in `copied` have been handled. */
  ghost predicate Partial(fs: Files, fs': Files, src: Path, dest: Path, copied: set<Path>) {
    forall q ::
      if dest <= q && Origin(src, dest, q) in copied
      then Origin(src, dest, q) in fs && q in fs' && fs'[q] == Arriving(fs, src, dest, Origin(src, dest, q))
      else (q in fs' <==> q in fs) && (q in fs ==> fs'[q] == fs[q])
  }

  lemma OriginOfImage(src: Path, dest: Path, p: Path)
    requires src <= p
    ensures dest <= Image(src, dest, p)
    ensures Origin(src, dest, Image(src, dest, p)) == p
    ensures p != src ==> Image(src, dest, p) != [] && Up(Image(src, dest, p)) == Image(src, dest, Up(p)) && src <= Up(p)
  {
    var q := Image(src, dest, p);
    assert q[|dest|..] == p[|src|..];
    if p != src {
      assert src <= Up(p);
      assert Up(q) == dest + Up(p)[|src|..];
    }
  }

  lemma ImageOfOrigin(src: Path, dest: Path, q: Path)
    requires dest <= q
    ensures src <= Origin(src, dest, q) && Image(src, dest, Origin(src, dest, q)) == q
  {
  }

  lemma PrefixesCompare(a: Path, b: Path, p: Path)
    requires a <= p && b <= p
    ensures a <= b || b <= a
  {
    assert a == p[..|a|] && b == p[..|b|];
  }

  /** What is below the source is not below a disjoint destination. */
  lemma SourceIsOutside(src: Path, dest: Path, p: Path)
    requires Disjoint(src, dest) && src <= p
    ensures !(dest <= p)
  {
    if dest <= p { PrefixesCompare(src, dest, p); }
  }

  lemma PartialStep(fs: Files, before: Files, after: Files, src: Path, dest: Path, copied: set<Path>, p: Path)
    requires Partial(fs, before, src, dest, copied)
    requires src <= p && p in fs
    requires after == before[Image(src, dest, p) := Arriving(fs, src, dest, p)]
    ensures Partial(fs, after, src, dest, copied + {p})
  {
    OriginOfImage(src, dest, p);
    forall q | dest <= q && Origin(src, dest, q) == p ensures q == Image(src, dest, p) {
      ImageOfOrigin(src, dest, q);
    }
  }

  /** What every step of the recursive copy keeps: nothing outside the destination changes, no link
      appears where something will arrive, and if the copy was `ready` to begin, exactly the sources
      in `copied` have arrived. */
  ghost predicate Copying(fs: Files, fs': Files, src: Path, dest: Path, copied: set<Path>, ready: bool) {
    && SameOutside(fs, fs', dest)
    && NoLinkInTheWay(fs, fs', src, dest)
    && (src == dest ==> ready)
    && (ready ==> NoClash(fs, src, dest) && Partial(fs, fs', src, dest, copied))
  }

  /** The children of a directory that a copy takes along. */
  function Taken(fs: Files, dir: Path): set<Path> {
    set p | p in fs && IsChild(fs, dir, p) && !fs[p].Symlink?
  }

  predicate Agree(fs: Files, fs': Files, p: Path) {
    (p in fs' <==> p in fs) && (p in fs ==> fs'[p] == fs[p])
  }

  /** Nothing has gone or changed its kind, and the tree is still one. */
  ghost predicate Grown(fs: Files, fs': Files) {
    && (forall p :: p in fs ==> p in fs' && fs'[p].Dir? == fs[p].Dir? && fs'[p].Symlink? == fs[p].Symlink?)
    && (WellFormed(fs) ==> WellFormed(fs'))
  }

  function Without(fs: Files, p: Path): Files {
    map q | q in fs && !(p <= q) :: fs[q]
  }

  predicate MayRename(fs: Files, p: Path, q: Path) {
    && p in fs
    && (p != q && q in fs ==> fs[q].Dir? == fs[p].Dir? && (fs[q].Dir? ==> Children(fs, q) == {}))
  }

  /** Everything at and below `p`, links included, is now at and below `q` and nowhere else. */
  ghost predicate IsRename(fs: Files, fs': Files, p: Path, q: Path) {
    forall x ::
      if q <= x then (x in fs' <==> Origin(p, q, x) in fs) && (x in fs' ==> fs'[x] == fs[Origin(p, q, x)])
      else if p <= x then x !in fs'
      else (x in fs' <==> x in fs) && (x in fs ==> fs'[x] == fs[x])
  }

  function Renamed(fs: Files, p: Path, q: Path): (fs': Files)
    requires Disjoint(p, q)
    ensures IsRename(fs, fs', p, q)
  {
    var below := set y | y in fs && p <= y;
    assert forall y :: y in below ==> q <= Image(p, q, y) && Origin(p, q, Image(p, q, y)) == y by {
      forall y | y in below ensures q <= Image(p, q, y) && Origin(p, q, Image(p, q, y)) == y { OriginOfImage(p, q, y); }
    }
    var images := set y | y in below :: Image(p, q, y);
    assert forall x :: q <= x ==> (x in images <==> Origin(p, q, x) in fs) by {
      forall x | q <= x ensures x in images <==> Origin(p, q, x) in fs { ImageOfOrigin(p, q, x); }
    }
    var kept := map x | x in fs && !(p <= x) && !(q <= x) :: fs[x];
    var moved := map x | x in images :: fs[Origin(p, q, x)];
    kept + moved
  }

  /** What a COPY or MOVE request asks for: `source` is the resolved existing source, `target` the
      destination as it is spelled below the root directory, if that is an absolute path, and `dest`
      the destination after its parent has been made canonical. */
  datatype Transfer = Transfer(isMove: bool, overwrite: bool, shallow: bool, source: Path, target: Option<Path>, dest: Path)

  /** The request gets past the checks that answer 403 and 412. */
  predicate Attempts(fs: Files, t: Transfer) {
    t.target != Some(t.source) && (Exists(fs, t.dest) ==> t.overwrite)
  }

  predicate SameProps(before: map<Path, Properties>, after: map<Path, Properties>, p: Path) {
    (p in after <==> p in before) && (p in before ==> after[p] == before[p])
  }

  class FileSystem {
    var files: Files
    var deadProps: map<Path, Properties>

    method CreateDir(p: Path) returns (r: Result<(), IoError>)
      modifies `files
      ensures r == if p in old(files) then Failure(AlreadyExists)
                   else if p == [] || !IsDir(old(files), Up(p)) then Failure(OtherError)
                   else Success(())
      ensures files == if r.Success? then old(files)[p := Dir] else old(files)
    {
      if p in files { return Failure(AlreadyExists); }
      if p == [] || !IsDir(files, Up(p)) { return Failure(OtherError); }
      files := files[p := Dir];
      return Success(());
    }

    /** Copy the contents of one file; a destination that is a symbolic link is excluded. */
    method CopyFile(p: Path, q: Path) returns (r: Result<(), IoError>)
      requires q in files ==> !files[q].Symlink?
      modifies `files
      ensures r == if p !in old(files) || !old(files)[p].File? || IsDir(old(files), q)
                      || q == [] || !IsDir(old(files), Up(q)) then Failure(OtherError)
                   else Success(())
      ensures files == if r.Success? then old(files)[q := CopiedTo(old(files), p, q)] else old(files)
    {
      if p !in files || !files[p].File? || IsDir(files, q) || q == [] || !IsDir(files, Up(q)) {
        return Failure(OtherError);
      }
      files := files[q := if p == q then File([]) else files[p]];
      return Success(());
    }

    /** One entry of a directory being copied: a directory is created (it may exist already) and
        pushed, a symbolic link is skipped, a file is copied. */
    method CopyEntry(entry: Path, entryDest: Path) returns (r: Result<(), IoError>, push: bool)
      requires entry in files && (entryDest in files && files[entryDest].Symlink? ==> files[entry].Symlink?)
      modifies `files
      ensures push ==> r.Success? && old(files)[entry].Dir?
      ensures r.Success? ==> push == old(files)[entry].Dir?
      ensures forall q :: q != entryDest ==> (q in files <==> q in old(files)) && (q in files ==> files[q] == old(files)[q])
      ensures entryDest in files && files[entryDest].Symlink? ==> old(files)[entry].Symlink?
      ensures old(files)[entry].Symlink? ==> r.Success? && files == old(files)
      ensures && !old(files)[entry].Symlink? && entryDest != [] && IsDir(old(files), Up(entryDest))
              && (entryDest in old(files) ==> old(files)[entryDest].Dir? == old(files)[entry].Dir?)
              ==> r.Success? && files == old(files)[entryDest := CopiedTo(old(files), entry, entryDest)]
      ensures Grown(old(files), files)
      ensures r.Success? && old(files)[entry].Dir? ==> entryDest in files
      ensures r.Success? && old(files)[entry].File? ==> entryDest != [] && IsDir(files, Up(entryDest))
    {
      push := false;
      if files[entry].Dir? {
        var created := CreateDir(entryDest);
        if created.Failure? && created.error != AlreadyExists { return created, false; }
        assert entryDest in old(files) && old(files)[entryDest].Dir? ==> files == old(files)[entryDest := Dir];
        return Success(()), true;
      } else if files[entry].Symlink? {
        return Success(()), false;
      } else {
        r := CopyFile(entry, entryDest);
      }
    }

    /** One entry within the recursive copy: exactly that entry arrives, unless it is a link. */
    method CopyNext(ghost fs: Files, ghost src: Path, ghost dest: Path, ghost copied: set<Path>, ghost ready: bool, dir: Path, dirDest: Path, entry: Path)
      returns (r: Result<(), IoError>, push: bool)
      requires Separate(src, dest) && src <= dir && IsDir(fs, dir) && dirDest == Image(src, dest, dir)
      requires IsChild(fs, dir, entry) && entry !in copied && dir in copied
      requires Copying(fs, files, src, dest, copied, ready)
      modifies `files
      ensures SameOutside(fs, files, dest) && NoLinkInTheWay(fs, files, src, dest)
      ensures ready ==> r.Success?
      ensures r.Success? ==> Copying(fs, files, src, dest, copied + (if fs[entry].Symlink? then {} else {entry}), ready)
      ensures src <= entry && dirDest + [Last(entry)] == Image(src, dest, entry)
      ensures r.Success? ==> push == fs[entry].Dir?
    {
      var entryDest := dirDest + [Last(entry)];
      EntryReady(fs, files, src, dest, copied, ready, dir, entry);
      r, push := CopyEntry(entry, entryDest);
      EntryDone(fs, old(files), files, src, dest, copied, ready, entry, r.Success?);
      assert copied + {} == copied;
    }

    /** The inner loop of `copy_dir`: all entries of the directory `dir`. */
    method CopyEntries(ghost fs: Files, ghost src: Path, ghost dest: Path, ghost copied: set<Path>, ghost ready: bool, dir: Path, dirDest: Path)
      returns (r: Result<(), IoError>, pushed: seq<(Path, Path)>)
      requires Separate(src, dest) && src <= dir && IsDir(fs, dir) && dirDest == Image(src, dest, dir)
      requires Copying(fs, files, src, dest, copied, ready)
      requires dir in copied && forall p :: IsChild(fs, dir, p) ==> p !in copied
      modifies `files
      ensures SameOutside(fs, files, dest) && NoLinkInTheWay(fs, files, src, dest)
      ensures ready ==> r.Success?
      ensures r.Success? ==> Copying(fs, files, src, dest, copied + Taken(fs, dir), ready)
      ensures r.Success? ==> NoDuplicates(Firsts(pushed)) && ImagesOf(pushed, src, dest)
      ensures r.Success? ==> forall p :: p in Firsts(pushed) <==> p in Children(fs, dir) && fs[p].Dir?
    {
      pushed := [];
      var entries := ReadDir(files, dir);
      SameChildren(fs, files, src, dest, copied, ready, dir);
      ghost var done: set<Path> := {};
      assert copied + done == copied;
      for k := 0 to |entries|
        invariant done == TakenOf(fs, entries[..k])
        invariant Copying(fs, files, src, dest, copied + done, ready)
        invariant NoDuplicates(Firsts(pushed)) && ImagesOf(pushed, src, dest)
        invariant forall p :: p in Firsts(pushed) <==> p in entries[..k] && IsDir(fs, p)
      {
        var entry := entries[k];
        assert entry in entries && entry in Children(fs, dir);
        assert entry !in entries[..k];
        assert entries[..k + 1] == entries[..k] + [entry];
        var push;
        r, push := CopyNext(fs, src, dest, copied + done, ready, dir, dirDest, entry);
        if r.Failure? { return; }
        ghost var taken: set<Path> := if fs[entry].Symlink? then {} else {entry};
        assert copied + done + taken == copied + (done + taken);
        done := done + taken;
        if push {
          assert Firsts(pushed + [(entry, dirDest + [Last(entry)])]) == Firsts(pushed) + [entry];
          pushed := pushed + [(entry, dirDest + [Last(entry)])];
        }
      }
      assert entries[..|entries|] == entries;
      assert done == Taken(fs, dir);
      r := Success(());
    }

    method RemoveAll(p: Path)
      modifies `files
      ensures files == Without(old(files), p)
    {
      files := Without(files, p);
    }

    /** `rename` of the operating system: it may fail for reasons of its own, and it replaces a
        file only by a file and a directory only if that is empty. */
    method Rename(p: Path, q: Path, fails: bool) returns (ok: bool)
      requires Separate(p, q)
      modifies `files
      ensures ok == (!fails && MayRename(old(files), p, q))
      ensures if ok && p != q then IsRename(old(files), files, p, q) else files == old(files)
    {
      ok := !fails && MayRename(files, p, q);
      if ok && p != q {
        files := Renamed(files, p, q);
      }
    }

    /** The last step of MOVE: rename over the copy, or remove the source. */
    method FinishMove(src: Path, dest: Path, renameFails: bool)
      requires Separate(src, dest)
      modifies `files
      ensures src == dest ==> files == if src in old(files) && !renameFails then old(files) else Without(old(files), src)
      ensures src != dest ==> forall p :: src <= p ==> p !in files
      ensures forall p :: !(src <= p) && !(dest <= p) ==> Agree(old(files), files, p)
      ensures src != dest ==>
                if MayRename(old(files), src, dest) && !renameFails
                then IsRename(old(files), files, src, dest)
                else forall p :: dest <= p ==> Agree(old(files), files, p)
    {
      var renamed := Rename(src, dest, renameFails);
      if src == dest {
        if !renamed { RemoveAll(src); }
      } else if renamed {
        forall p | src <= p ensures p !in files { SourceIsOutside(src, dest, p); }
      } else {
        RemoveAll(src);
        forall p | dest <= p ensures Agree(old(files), files, p) { SourceIsOutside(dest, src, p); }
      }
    }

    /** A destination of the other kind is removed when it may be overwritten. */
    method ClearDestination(src: Path, dest: Path) returns (destExisted: bool)
      requires src in files
      modifies `files
      ensures files == Cleared(old(files), src, dest)
      ensures destExisted == (dest in files)
    {
      destExisted := dest in files;
      if destExisted && files[src].Dir? != files[dest].Dir? {
        RemoveAll(dest);
        destExisted := false;
      } else {
        assert files == Cleared(files, src, dest);
      }
    }

    /** The copying part of COPY and MOVE. `isDir` was read before the destination was cleared. */
    method Place(t: Transfer, isDir: bool, destExisted: bool) returns (r: Result<(), StatusCode>)
      requires WellFormed(files) && destExisted == (t.dest in files)
      requires isDir ==> IsDir(files, t.source) && Separate(t.source, t.dest)
      requires isDir ==> NoLinkInTheWay(files, files, t.source, t.dest) && (destExisted ==> IsDir(files, t.dest))
      requires !isDir ==> (t.source in files ==> files[t.source].File?) && (destExisted ==> files[t.dest].File?)
      modifies `files
      ensures SameOutside(old(files), files, t.dest)
      ensures isDir && (t.isMove || !t.shallow) && HasParent(old(files), t.dest) && NoClash(old(files), t.source, t.dest) ==>
                r.Success? && IsCopy(old(files), files, t.source, t.dest)
      ensures isDir && !t.isMove && t.shallow && HasParent(old(files), t.dest) ==>
                r.Success? && files == old(files)[t.dest := Dir]
      ensures !isDir ==> r.Success? == (t.source in old(files) && HasParent(old(files), t.dest))
      ensures !isDir ==> files == if r.Success? then old(files)[t.dest := CopiedTo(old(files), t.source, t.dest)] else old(files)
      ensures r.Failure? ==> r.error == INTERNAL_SERVER_ERROR
    {
      if isDir {
        if !t.isMove && t.shallow {
          if !destExisted {
            var created := CreateDir(t.dest);
            if created.Failure? { return Failure(INTERNAL_SERVER_ERROR); }
          } else {
            assert files == files[t.dest := Dir];
          }
          return Success(());
        }
        r := CopyDir(t.source, t.dest, destExisted);
      } else {
        var copied := CopyFile(t.source, t.dest);
        if copied.Failure? { return Failure(INTERNAL_SERVER_ERROR); }
        return Success(());
      }
    }

    /** The source's own dead properties follow it. */
    method MigrateProps(t: Transfer)
      modifies `deadProps
      ensures t.source !in old(deadProps) ==> deadProps == old(deadProps)
      ensures t.source in old(deadProps) ==>
                && t.dest in deadProps && deadProps[t.dest] == old(deadProps)[t.source]
                && (t.source in deadProps <==> !t.isMove || t.dest == t.source)
                && (t.source in deadProps ==> deadProps[t.source] == old(deadProps)[t.source])
      ensures forall p :: p != t.source && p != t.dest ==> SameProps(old(deadProps), deadProps, p)
    {
      if t.source in deadProps {
        var props := deadProps[t.source];
        deadProps := deadProps - {t.source};
        if !t.isMove {
          deadProps := deadProps[t.source := props];
          assert deadProps == old(deadProps);
        }
        deadProps := deadProps[t.dest := props];
      }
    }

    /** The file-system part of COPY and MOVE, up to the copy. */
    method ClearAndPlace(t: Transfer) returns (r: Result<(), StatusCode>)
      requires WellFormed(files) && t.source in files && !files[t.source].Symlink?
      requires NoLinkInTheWay(files, files, t.source, t.dest)
      requires files[t.source].Dir? ==> Separate(t.source, t.dest)
      modifies `files
      ensures r.Failure? ==> r.error == INTERNAL_SERVER_ERROR
      ensures SameOutside(old(files), files, t.dest)
      ensures Proceeds(old(files), t) ==> r.Success? && Placed(old(files), files, t)
      ensures !Separate(t.source, t.dest) ==> r.Failure? && files == Cleared(old(files), t.source, t.dest)
    {
      var isDir := files[t.source].Dir?;
      var destExisted := ClearDestination(t.source, t.dest);
      ClearedIsReady(old(files), t.source, t.dest);
      ghost var cleared := files;
      r := Place(t, isDir, destExisted);
      if !isDir && r.Success? { FileCopy(cleared, files, t.source, t.dest); }
    }

    /** The file-system part of COPY and MOVE. */
    method Relocate(t: Transfer, renameFails: bool) returns (r: Result<(), StatusCode>)
      requires WellFormed(files) && t.source in files && !files[t.source].Symlink?
      requires NoLinkInTheWay(files, files, t.source, t.dest)
      requires files[t.source].Dir? ==> Separate(t.source, t.dest)
      modifies `files
      ensures r.Failure? ==> r.error == INTERNAL_SERVER_ERROR
      ensures Untouched(old(files), files, t)
      ensures r.Success? && t.isMove && t.source != t.dest ==> forall p :: t.source <= p ==> p !in files
      ensures Proceeds(old(files), t) ==> r.Success? && Relocated(old(files), files, t, renameFails)
      ensures !Separate(t.source, t.dest) ==> r.Failure? && files == Cleared(old(files), t.source, t.dest)
    {
      ghost var before := files;
      r := ClearAndPlace(t);
      ghost var copied := files;
      UntouchedAfter(before, copied, copied, t);
      if r.Success? && t.isMove {
        FinishMove(t.source, t.dest, renameFails);
        UntouchedAfter(before, copied, files, t);
        MoveDone(before, copied, files, t, renameFails);
      }
    }

    /** `do_move_or_copy`, once the source exists and the destination has been resolved. */
    method MoveOrCopy(t: Transfer, renameFails: bool) returns (status: StatusCode)
      requires WellFormed(files) && t.source in files && !files[t.source].Symlink?
      requires Attempts(files, t) ==> NoLinkInTheWay(files, files, t.source, t.dest)
      requires Attempts(files, t) && files[t.source].Dir? ==> Separate(t.source, t.dest)
      modifies this
      ensures status == FORBIDDEN <==> t.target == Some(t.source)
      ensures status == PRECONDITION_FAILED <==> t.target != Some(t.source) && Exists(old(files), t.dest) && !t.overwrite
      ensures status == FORBIDDEN || status == PRECONDITION_FAILED ==> files == old(files) && deadProps == old(deadProps)
      ensures status == NO_CONTENT ==> Exists(old(files), t.dest)
      ensures status == CREATED ==> !Exists(old(files), t.dest)
      ensures !Done(status) || t.source !in old(deadProps) ==> deadProps == old(deadProps)
      ensures Done(status) && t.source in old(deadProps) ==>
                && t.dest in deadProps && deadProps[t.dest] == old(deadProps)[t.source]
                && (t.source in deadProps <==> !t.isMove || t.dest == t.source)
                && (t.source in deadProps ==> deadProps[t.source] == old(deadProps)[t.source])
      ensures forall p :: p != t.source && p != t.dest ==> SameProps(old(deadProps), deadProps, p)
      ensures Untouched(old(files), files, t)
      ensures Done(status) && t.isMove && t.source != t.dest ==> forall p :: t.source <= p ==> p !in files
      ensures Attempts(old(files), t) && Proceeds(old(files), t) ==>
                Done(status) && Relocated(old(files), files, t, renameFails)
      ensures Attempts(old(files), t) && !Separate(t.source, t.dest) ==>
                status == INTERNAL_SERVER_ERROR && files == Cleared(old(files), t.source, t.dest)
    {
      if t.target == Some(t.source) { return FORBIDDEN; }
      var existedBefore := Exists(files, t.dest);
      if existedBefore && !t.overwrite { return PRECONDITION_FAILED; }
      var relocated := Relocate(t, renameFails);
      if relocated.Failure? { return relocated.error; }
      MigrateProps(t);
      return if existedBefore then NO_CONTENT else CREATED;
    }

    /** `copy_dir`: the stack loop terminates on every finite tree; it never writes outside the
        destination, and without clashes it ends with the recursive copy in place. */
    method CopyDir(src: Path, dest: Path, destExisted: bool) returns (r: Result<(), StatusCode>)
      requires WellFormed(files) && IsDir(files, src) && Separate(src, dest) && NoLinkInTheWay(files, files, src, dest)
      modifies `files
      ensures SameOutside(old(files), files, dest)
      ensures NoClash(old(files), src, dest) && DestinationReady(old(files), dest, destExisted) ==>
                r.Success? && IsCopy(old(files), files, src, dest)
      ensures r.Failure? ==> r.error == INTERNAL_SERVER_ERROR
    {
      ghost var fs := files;
      ghost var ready := NoClash(fs, src, dest) && DestinationReady(fs, dest, destExisted);
      if !destExisted {
        var created := CreateDir(dest);
        if created.Failure? { return Failure(INTERNAL_SERVER_ERROR); }
      }
      if src == dest { OntoItself(fs, src, destExisted); }
      CopyingStarts(fs, files, src, dest, ready);
      var stack := [(src, dest)];
      ghost var visited: set<Path> := {};
      assert Firsts(stack) == [src];
      while stack != []
        invariant Visiting(fs, files, src, dest, stack, visited, ready)
        decreases |Directories(fs, src) - visited|
      {
        ghost var dir := stack[|stack| - 1].0;
        var step;
        step, stack := VisitDirectory(fs, src, dest, visited, ready, stack);
        if step.Failure? { return Failure(INTERNAL_SERVER_ERROR); }
        FewerLeft(Directories(fs, src), visited, dir);
        visited := visited + {dir};
      }
      VisitingEnds(fs, files, src, dest, stack, visited, ready);
      return Success(());
    }

    /** One turn of the outer loop: the top of the stack is visited and its subdirectories are
        pushed. */
    method VisitDirectory(ghost fs: Files, ghost src: Path, ghost dest: Path, ghost visited: set<Path>, ghost ready: bool, stack: seq<(Path, Path)>)
      returns (r: Result<(), IoError>, next: seq<(Path, Path)>)
      requires WellFormed(fs) && IsDir(fs, src) && Separate(src, dest)
      requires stack != [] && Visiting(fs, files, src, dest, stack, visited, ready)
      modifies `files
      ensures SameOutside(fs, files, dest) && NoLinkInTheWay(fs, files, src, dest)
      ensures ready ==> r.Success?
      ensures stack[|stack| - 1].0 in Directories(fs, src) - visited
      ensures r.Success? ==> Visiting(fs, files, src, dest, next, visited + {stack[|stack| - 1].0}, ready)
    {
      var (dir, dirDest) := stack[|stack| - 1];
      VisitTop(fs, files, src, dest, stack, visited, ready);
      var pushed;
      r, pushed := CopyEntries(fs, src, dest, Arrived(fs, src, visited), ready, dir, dirDest);
      next := stack[..|stack| - 1] + pushed;
      if r.Success? {
        VisitStep(fs, files, src, dest, stack, pushed, visited, ready);
      }
    }
  }

  /** The state of the outer loop. */
  ghost predicate Visiting(fs: Files, fs': Files, src: Path, dest: Path, stack: seq<(Path, Path)>, visited: set<Path>, ready: bool) {
    && Worklist(fs, src, Firsts(stack), visited) && ImagesOf(stack, src, dest)
    && Copying(fs, fs', src, dest, Arrived(fs, src, visited), ready)
  }

  // ---- The end state of COPY and MOVE ------------------------------------------------------

  /** The file system after a destination of the other kind has been removed. */
  function Cleared(fs: Files, src: Path, dest: Path): Files
    requires src in fs
  {
    if dest in fs && fs[src].Dir? != fs[dest].Dir? then Without(fs, dest) else fs
  }

  predicate HasParent(fs: Files, p: Path) {
    p != [] && IsDir(fs, Up(p))
  }

  /** COPY of a directory with depth 0. */
  predicate IsShallow(fs: Files, t: Transfer) {
    !t.isMove && t.shallow && IsDir(fs, t.source)
  }

  /** Nothing is in the way of the copy. */
  ghost predicate Proceeds(fs: Files, t: Transfer)
    requires t.source in fs
  {
    && Separate(t.source, t.dest) && HasParent(fs, t.dest)
    && NoClash(Cleared(fs, t.source, t.dest), t.source, t.dest)
  }

  /** The end of the copying part. */
  ghost predicate Placed(fs: Files, fs': Files, t: Transfer)
    requires t.source in fs
  {
    if IsShallow(fs, t) then fs' == Cleared(fs, t.source, t.dest)[t.dest := Dir]
    else IsCopy(Cleared(fs, t.source, t.dest), fs', t.source, t.dest)
  }

  /** The end state: a move, a shallow copy that is a directory of its own, or the full copy. A move of
      a node onto itself is a copy onto itself, if rename does not fail. */
  ghost predicate Relocated(fs: Files, fs': Files, t: Transfer, renameFails: bool)
    requires t.source in fs
  {
    if t.isMove && t.source == t.dest then
      (if renameFails then fs' == Without(fs, t.source) else IsCopy(fs, fs', t.source, t.dest))
    else if t.isMove then IsMove(fs, fs', t.source, t.dest)
    else Placed(fs, fs', t)
  }

  /** Outside the destination, and for MOVE the source, nothing has changed. */
  ghost predicate Untouched(fs: Files, fs': Files, t: Transfer) {
    forall p :: !(t.dest <= p) && (t.isMove ==> !(t.source <= p)) ==> Agree(fs, fs', p)
  }

  lemma UntouchedAfter(fs: Files, copied: Files, fs': Files, t: Transfer)
    requires SameOutside(fs, copied, t.dest)
    requires fs' == copied || (t.isMove && forall p :: !(t.source <= p) && !(t.dest <= p) ==> Agree(copied, fs', p))
    ensures Untouched(fs, fs', t)
  {
    forall p | !(t.dest <= p) && (t.isMove ==> !(t.source <= p)) ensures Agree(fs, fs', p) {
      assert Agree(copied, fs', p);
    }
  }

  predicate Done(status: StatusCode) {
    status == CREATED || status == NO_CONTENT
  }

  lemma WithoutIsTree(fs: Files, p: Path)
    requires WellFormed(fs)
    ensures WellFormed(Without(fs, p))
  {
    forall q | q in Without(fs, p) && q != [] ensures IsDir(Without(fs, p), Up(q)) {
      assert p <= Up(q) ==> p <= q;
    }
  }

  /** A file and a destination that contain each other: the destination is a directory that goes with
      the file in it, or has no directory above it. */
  lemma NestedFile(fs: Files, src: Path, dest: Path)
    requires WellFormed(fs) && src in fs && fs[src].File? && !Separate(src, dest)
    ensures var cleared := Cleared(fs, src, dest);
            && WellFormed(cleared) && SameOutside(fs, cleared, dest)
            && !(src in cleared && HasParent(cleared, dest))
            && (src in cleared ==> cleared[src].File?) && dest !in cleared
  {
    WithoutIsTree(fs, dest);
    if dest <= src {
      AboveIsDir(fs, dest, src);
    } else {
      if dest in fs { FileIsLeaf(fs, src, dest); }
      if dest != [] && Up(dest) in fs {
        assert src <= Up(dest);
        FileIsLeaf(fs, src, Up(dest));
      }
    }
  }

  lemma {:induction false} AboveIsDir(fs: Files, p: Path, q: Path)
    requires WellFormed(fs) && q in fs && p <= q && p != q
    ensures IsDir(fs, p)
    decreases |q|
  {
    assert p <= Up(q);
    if p != Up(q) { AboveIsDir(fs, p, Up(q)); }
  }

  predicate Content(fs: Files, p: Path) {
    p in fs && fs[p].File? && fs[p].content != []
  }

  /** COPY leaves the source as it was exactly when it is not copied onto itself, or is a directory
      copied alone, or holds no content to lose. */
  lemma CopyKeepsSourceIff(fs: Files, fs': Files, t: Transfer)
    requires WellFormed(fs) && t.source in fs && !t.isMove && NoLinkInTheWay(fs, fs, t.source, t.dest)
    requires Proceeds(fs, t) && Placed(fs, fs', t)
    ensures (forall p :: t.source <= p ==> Agree(fs, fs', p)) <==>
            t.source != t.dest || IsShallow(fs, t) || forall p :: t.source <= p ==> !Content(fs, p)
  {
    if t.source != t.dest {
      forall p | t.source <= p ensures Agree(fs, fs', p) { CopiedFromStays(fs, fs', t, p); }
    } else if !IsShallow(fs, t) {
      forall p | t.source <= p ensures Agree(fs, fs', p) <==> !Content(fs, p) { CopiedOntoSelf(fs, fs', t.source, p); }
    } else {
      assert fs' == fs;
    }
  }

  lemma CopiedFromStays(fs: Files, fs': Files, t: Transfer, p: Path)
    requires WellFormed(fs) && t.source in fs && !t.isMove && NoLinkInTheWay(fs, fs, t.source, t.dest)
    requires Proceeds(fs, t) && Placed(fs, fs', t) && t.source != t.dest && t.source <= p
    ensures Agree(fs, fs', p)
  {
    ClearedKeeps(fs, Cleared(fs, t.source, t.dest), t.source, t.dest);
    SourceIsOutside(t.source, t.dest, p);
  }

  /** Every file that is copied onto itself ends empty, and nothing else changes. */
  lemma CopiedOntoSelf(fs: Files, fs': Files, src: Path, p: Path)
    requires src <= p && IsCopy(fs, fs', src, src)
    ensures p in fs' <==> p in fs
    ensures p in fs ==> fs'[p] == if fs[p].File? then File([]) else fs[p]
  {
    assert Origin(src, src, p) == p;
  }

  /** Once the destination has been cleared, the copy can start. */
  lemma ClearedIsReady(fs: Files, src: Path, dest: Path)
    requires WellFormed(fs) && src in fs && !fs[src].Symlink? && NoLinkInTheWay(fs, fs, src, dest)
    requires fs[src].Dir? ==> Separate(src, dest)
    ensures var cleared := Cleared(fs, src, dest);
            && WellFormed(cleared) && SameOutside(fs, cleared, dest)
            && (Separate(src, dest) ==> src in cleared && HasParent(cleared, dest) == HasParent(fs, dest))
            && (!Separate(src, dest) ==> !(src in cleared && HasParent(cleared, dest)))
            && (src in cleared ==> cleared[src] == fs[src])
            && (fs[src].Dir? ==> NoLinkInTheWay(cleared, cleared, src, dest))
            && (dest in cleared ==> cleared[dest].Dir? == fs[src].Dir? && !cleared[dest].Symlink?)
  {
    if Separate(src, dest) {
      ClearedKeeps(fs, Cleared(fs, src, dest), src, dest);
      assert Origin(src, dest, dest) == src;
    } else {
      NestedFile(fs, src, dest);
    }
  }

  /** The end of a MOVE, onto itself or elsewhere. */
  lemma MoveDone(fs: Files, copied: Files, fs': Files, t: Transfer, renameFails: bool)
    requires WellFormed(fs) && t.source in fs && !fs[t.source].Symlink? && t.isMove && NoLinkInTheWay(fs, fs, t.source, t.dest)
    requires t.source == t.dest ==> fs' == if t.source in copied && !renameFails then copied else Without(copied, t.source)
    requires t.source != t.dest ==> forall p :: t.source <= p ==> p !in fs'
    requires forall p :: !(t.source <= p) && !(t.dest <= p) ==> Agree(copied, fs', p)
    requires t.source != t.dest ==>
               (MayRename(copied, t.source, t.dest) && IsRename(copied, fs', t.source, t.dest)) || forall p :: t.dest <= p ==> Agree(copied, fs', p)
    ensures Proceeds(fs, t) && Placed(fs, copied, t) ==> Relocated(fs, fs', t, renameFails)
  {
    if Proceeds(fs, t) && Placed(fs, copied, t) {
      if t.source == t.dest {
        OntoSelf(fs, copied, t.source);
      } else {
        MoveHappened(fs, Cleared(fs, t.source, t.dest), copied, fs', t.source, t.dest);
      }
    }
  }

  lemma OntoSelf(fs: Files, fs': Files, src: Path)
    requires src in fs && IsCopy(fs, fs', src, src) && NoClash(fs, src, src)
    ensures src in fs' && Without(fs', src) == Without(fs, src)
  {
    assert Origin(src, src, src) == src;
  }

  lemma ClearedKeeps(fs: Files, cleared: Files, src: Path, dest: Path)
    requires WellFormed(fs) && src in fs && Separate(src, dest) && NoLinkInTheWay(fs, fs, src, dest)
    requires cleared == Cleared(fs, src, dest)
    ensures WellFormed(cleared) && NoLinkInTheWay(cleared, cleared, src, dest) && SameOutside(fs, cleared, dest)
    ensures src in cleared && cleared[src] == fs[src]
    ensures dest in cleared ==> cleared[dest].Dir? == cleared[src].Dir?
    ensures forall q :: IsImage(cleared, src, dest, q) <==> IsImage(fs, src, dest, q)
    ensures HasParent(cleared, dest) == HasParent(fs, dest)
  {
    WithoutIsTree(fs, dest);
    forall q | dest <= q && src != dest
      ensures Origin(src, dest, q) in cleared <==> Origin(src, dest, q) in fs
      ensures Origin(src, dest, q) in fs ==> cleared[Origin(src, dest, q)] == fs[Origin(src, dest, q)]
    {
      SourceIsOutside(src, dest, Origin(src, dest, q));
    }
    if dest != [] { assert !(dest <= Up(dest)); }
  }

  /** `fs'` is `fs` after a MOVE: nothing is left at the source; at the destination is everything
      the source held except perhaps symbolic links, and nothing that was in neither place. */
  ghost predicate IsMove(fs: Files, fs': Files, src: Path, dest: Path)
    requires src in fs
  {
    && (forall p :: src <= p ==> p !in fs')
    && (forall p :: !(src <= p) && !(dest <= p) ==> Agree(fs, fs', p))
    && (forall q :: dest <= q ==> MovedAt(fs, fs', src, dest, q))
  }

  /** Whether the rename succeeds over the copy or the source is removed, the move has happened. */
  lemma MoveHappened(fs: Files, cleared: Files, copied: Files, fs': Files, src: Path, dest: Path)
    requires WellFormed(fs) && src in fs && !fs[src].Symlink? && Disjoint(src, dest) && NoLinkInTheWay(fs, fs, src, dest)
    requires cleared == Cleared(fs, src, dest) && IsCopy(cleared, copied, src, dest)
    requires forall p :: src <= p ==> p !in fs'
    requires forall p :: !(src <= p) && !(dest <= p) ==> Agree(copied, fs', p)
    requires (MayRename(copied, src, dest) && IsRename(copied, fs', src, dest)) || forall p :: dest <= p ==> Agree(copied, fs', p)
    ensures IsMove(fs, fs', src, dest)
  {
    ClearedKeeps(fs, cleared, src, dest);
    forall p | !(src <= p) && !(dest <= p) ensures Agree(fs, fs', p) {
      assert Agree(copied, fs', p);
    }
    forall q | dest <= q ensures MovedAt(fs, fs', src, dest, q) {
      if !(MayRename(copied, src, dest) && IsRename(copied, fs', src, dest)) { assert Agree(copied, fs', q); }
      MovedOne(fs, cleared, copied, fs', src, dest, q);
    }
  }

  lemma MovedOne(fs: Files, cleared: Files, copied: Files, fs': Files, src: Path, dest: Path, q: Path)
    requires WellFormed(cleared) && src in fs && src in cleared && Disjoint(src, dest) && !cleared[src].Symlink?
    requires cleared == Cleared(fs, src, dest) && IsCopy(cleared, copied, src, dest)
    requires dest in cleared ==> cleared[dest].Dir? == cleared[src].Dir?
    requires (MayRename(copied, src, dest) && IsRename(copied, fs', src, dest)) || Agree(copied, fs', q)
    requires dest <= q
    ensures MovedAt(fs, fs', src, dest, q)
  {
    SourceIsOutside(src, dest, Origin(src, dest, q));
    CopyKeepsSource(cleared, copied, src, dest, Origin(src, dest, q));
    if MayRename(copied, src, dest) && IsRename(copied, fs', src, dest) {
      if q in cleared && !IsImage(cleared, src, dest, q) { RenameNeedsEmpty(cleared, copied, src, dest, q); }
    }
  }

  /** Rename replaces no directory that still has something in it. */
  lemma RenameNeedsEmpty(cleared: Files, copied: Files, src: Path, dest: Path, q: Path)
    requires WellFormed(cleared) && IsCopy(cleared, copied, src, dest) && Disjoint(src, dest) && src in cleared && !cleared[src].Symlink?
    requires dest <= q && q in cleared && !IsImage(cleared, src, dest, q)
    requires dest in cleared ==> cleared[dest].Dir? == cleared[src].Dir?
    ensures !MayRename(copied, src, dest)
  {
    assert Origin(src, dest, dest) == src && IsImage(cleared, src, dest, dest);
    var c := ChildOnTheWay(cleared, dest, q);
    CopyKeepsSource(cleared, copied, src, dest, src);
    assert c in Children(copied, dest);
  }

  lemma ChildOnTheWay(fs: Files, dest: Path, q: Path) returns (c: Path)
    requires WellFormed(fs) && q in fs && dest <= q && q != dest
    ensures IsDir(fs, dest) && c in fs && c != [] && Up(c) == dest
  {
    AboveIsDir(fs, dest, q);
    c := q[..|dest| + 1];
    assert dest <= c && c <= q;
    if c != q { AboveIsDir(fs, c, q); }
  }

  /** What a move does at one place of the destination. */
  predicate MovedAt(fs: Files, fs': Files, src: Path, dest: Path, q: Path)
    requires src in fs && dest <= q
  {
    if IsImage(fs, src, dest, q) then q in fs' && fs'[q] == fs[Origin(src, dest, q)]
    else if q in Cleared(fs, src, dest) then q in fs' && fs'[q] == fs[q]
    else q in fs' ==> Origin(src, dest, q) in fs && fs[Origin(src, dest, q)].Symlink? && fs'[q] == fs[Origin(src, dest, q)]
  }

  /** The end of the copying, place by place: the destination has what the source has but no links, and
      keeps what it had unless it was of the other kind; a shallow copy is a directory; a file copied onto
      itself is empty; outside the destination nothing changes. */
  lemma PlacedMeans(fs: Files, fs': Files, t: Transfer, q: Path)
    requires t.source in fs && Separate(t.source, t.dest) && Placed(fs, fs', t)
    ensures var stays := q in fs && (t.dest in fs && t.dest <= q ==> fs[t.dest].Dir? == fs[t.source].Dir?);
            if !(t.dest <= q) then (q in fs' <==> q in fs) && (q in fs ==> fs'[q] == fs[q])
            else
              var p := t.source + q[|t.dest|..];
              if !t.isMove && t.shallow && fs[t.source] == Dir then
                (if q == t.dest then q in fs' && fs'[q] == Dir else (q in fs' <==> stays) && (stays ==> fs'[q] == fs[q]))
              else if p in fs && !fs[p].Symlink? && (t.source != t.dest || p == q) then
                q in fs' && fs'[q] == if t.source == t.dest && fs[p].File? then File([]) else fs[p]
              else (q in fs' <==> stays) && (stays ==> fs'[q] == fs[q])
  {
    StaysIff(fs, t.source, t.dest, q);
    if t.dest <= q {
      if t.source == t.dest {
        assert t.source + q[|t.dest|..] == q;
      } else {
        SourceIsOutside(t.source, t.dest, Origin(t.source, t.dest, q));
        StaysIff(fs, t.source, t.dest, Origin(t.source, t.dest, q));
      }
    }
  }

  lemma StaysIff(fs: Files, src: Path, dest: Path, q: Path)
    requires src in fs
    ensures var stays := q in fs && (dest in fs && dest <= q ==> fs[dest].Dir? == fs[src].Dir?);
            (q in Cleared(fs, src, dest) <==> stays) && (stays ==> Cleared(fs, src, dest)[q] == fs[q])
  {
  }

  /** The end of MOVE, place by place: nothing is left at the source, and the destination has all that the
      source had except perhaps links, keeps what it had unless it was of the other kind, and has nothing
      else. */
  lemma MovedMeans(fs: Files, fs': Files, src: Path, dest: Path, q: Path)
    requires src in fs && Disjoint(src, dest) && IsMove(fs, fs', src, dest)
    ensures var stays := q in fs && (dest in fs && dest <= q ==> fs[dest].Dir? == fs[src].Dir?);
            if src <= q then q !in fs'
            else if !(dest <= q) then (q in fs' <==> q in fs) && (q in fs ==> fs'[q] == fs[q])
            else
              var p := src + q[|dest|..];
              if p in fs && !fs[p].Symlink? then q in fs' && fs'[q] == fs[p]
              else if stays then q in fs' && fs'[q] == fs[q]
              else q in fs' ==> p in fs && fs'[q] == fs[p]
  {
    StaysIff(fs, src, dest, q);
    if dest <= q && !(src <= q) {
      assert MovedAt(fs, fs', src, dest, q) && Origin(src, dest, q) == src + q[|dest|..];
    } else if !(dest <= q) && !(src <= q) {
      assert Agree(fs, fs', q);
    }
  }

  lemma CopyKeepsSource(fs: Files, copied: Files, src: Path, dest: Path, p: Path)
    requires Disjoint(src, dest) && IsCopy(fs, copied, src, dest) && src <= p
    ensures (p in copied <==> p in fs) && (p in fs ==> copied[p] == fs[p])
  {
    SourceIsOutside(src, dest, p);
  }

  /** A file has nothing below it. */
  lemma {:induction false} FileIsLeaf(fs: Files, src: Path, p: Path)
    requires WellFormed(fs) && src in fs && fs[src].File? && p in fs && src <= p
    ensures p == src
    decreases |p|
  {
    if p != src {
      assert src <= Up(p);
      FileIsLeaf(fs, src, Up(p));
    }
  }

  lemma FileCopy(fs: Files, fs': Files, src: Path, dest: Path)
    requires WellFormed(fs) && src in fs && fs[src].File? && fs' == fs[dest := CopiedTo(fs, src, dest)]
    ensures IsCopy(fs, fs', src, dest)
  {
    forall q | IsImage(fs, src, dest, q) ensures q == dest {
      FileIsLeaf(fs, src, Origin(src, dest, q));
      ImageOfOrigin(src, dest, q);
    }
    assert Origin(src, dest, dest) == src;
  }

  /** The destination is a directory, or can be created. */
  ghost predicate DestinationReady(fs: Files, dest: Path, existed: bool) {
    if existed then IsDir(fs, dest) else dest !in fs && dest != [] && IsDir(fs, Up(dest))
  }

  /** The sources that have arrived once the directories in `visited` have been visited. */
  ghost function Arrived(fs: Files, src: Path, visited: set<Path>): set<Path> {
    {src} + set p | p in fs && src < p && !fs[p].Symlink? && Up(p) in visited
  }

  /** A directory does not clash with itself. */
  lemma OntoItself(fs: Files, src: Path, destExisted: bool)
    requires IsDir(fs, src) && NoLinkInTheWay(fs, fs, src, src) && destExisted
    ensures NoClash(fs, src, src) && DestinationReady(fs, src, destExisted)
  {
    forall q | src <= q ensures Origin(src, src, q) == q {}
  }

  lemma CopyingStarts(fs: Files, now: Files, src: Path, dest: Path, ready: bool)
    requires IsDir(fs, src) && Separate(src, dest) && NoLinkInTheWay(fs, fs, src, dest)
    requires src == dest ==> ready
    requires now == fs || (dest !in fs && now == fs[dest := Dir])
    requires ready ==> IsDir(now, dest) && NoClash(fs, src, dest)
    ensures Visiting(fs, now, src, dest, [(src, dest)], {}, ready)
  {
    assert Arrived(fs, src, {}) == {src};
    assert Image(src, dest, src) == dest;
    assert Origin(src, dest, dest) == src;
    forall q | dest <= q && Origin(src, dest, q) == src ensures q == dest {
      ImageOfOrigin(src, dest, q);
    }
    assert Firsts([(src, dest)]) == [src];
  }

  /** The directory on top of the stack has arrived, and none of its children has. */
  lemma VisitTop(fs: Files, now: Files, src: Path, dest: Path, stack: seq<(Path, Path)>, visited: set<Path>, ready: bool)
    requires stack != [] && Visiting(fs, now, src, dest, stack, visited, ready)
    ensures var (dir, dirDest) := stack[|stack| - 1];
            && dir in Directories(fs, src) && dir !in visited && src <= dir && dirDest == Image(src, dest, dir)
            && dir in Arrived(fs, src, visited)
            && forall p :: IsChild(fs, dir, p) ==> p !in Arrived(fs, src, visited)
  {
    var dir := stack[|stack| - 1].0;
    assert Firsts(stack)[|stack| - 1] == dir;
    assert dir in Firsts(stack);
  }

  lemma StackConcat(a: seq<(Path, Path)>, b: seq<(Path, Path)>, src: Path, dest: Path)
    ensures Firsts(a + b) == Firsts(a) + Firsts(b)
    ensures ImagesOf(a + b, src, dest) <==> ImagesOf(a, src, dest) && ImagesOf(b, src, dest)
  {
    var c := a + b;
    assert forall i :: 0 <= i < |b| ==> b[i] == c[|a| + i];
    assert forall i :: 0 <= i < |a| ==> a[i] == c[i];
  }

  lemma WorkAdvances(fs: Files, src: Path, dest: Path, rest: seq<(Path, Path)>, top: (Path, Path), pushed: seq<(Path, Path)>, visited: set<Path>)
    requires WellFormed(fs)
    requires Worklist(fs, src, Firsts(rest) + [top.0], visited) && ImagesOf(rest, src, dest)
    requires NoDuplicates(Firsts(pushed)) && ImagesOf(pushed, src, dest)
    requires forall p :: p in Firsts(pushed) <==> p in Children(fs, top.0) && fs[p].Dir?
    ensures Worklist(fs, src, Firsts(rest + pushed), visited + {top.0}) && ImagesOf(rest + pushed, src, dest)
  {
    StackConcat(rest, pushed, src, dest);
    WorklistStep(fs, src, Firsts(rest), visited, top.0, Firsts(pushed));
  }

  lemma VisitStep(fs: Files, now: Files, src: Path, dest: Path, stack: seq<(Path, Path)>, pushed: seq<(Path, Path)>, visited: set<Path>, ready: bool)
    requires WellFormed(fs) && stack != []
    requires var dir := stack[|stack| - 1].0;
             && src <= dir
             && Copying(fs, now, src, dest, Arrived(fs, src, visited) + Taken(fs, dir), ready)
             && NoDuplicates(Firsts(pushed)) && ImagesOf(pushed, src, dest)
             && (forall p :: p in Firsts(pushed) <==> p in Children(fs, dir) && fs[p].Dir?)
    requires Worklist(fs, src, Firsts(stack), visited) && ImagesOf(stack, src, dest)
    ensures Visiting(fs, now, src, dest, stack[..|stack| - 1] + pushed, visited + {stack[|stack| - 1].0}, ready)
  {
    VisitParts(fs, now, src, dest, stack[..|stack| - 1], stack[|stack| - 1], stack, pushed, visited, ready);
  }

  lemma VisitParts(fs: Files, now: Files, src: Path, dest: Path, rest: seq<(Path, Path)>, top: (Path, Path), stack: seq<(Path, Path)>,
                   pushed: seq<(Path, Path)>, visited: set<Path>, ready: bool)
    requires WellFormed(fs) && stack == rest + [top] && src <= top.0
    requires Copying(fs, now, src, dest, Arrived(fs, src, visited) + Taken(fs, top.0), ready)
    requires NoDuplicates(Firsts(pushed)) && ImagesOf(pushed, src, dest)
    requires forall p :: p in Firsts(pushed) <==> p in Children(fs, top.0) && fs[p].Dir?
    requires Worklist(fs, src, Firsts(stack), visited) && ImagesOf(stack, src, dest)
    ensures Visiting(fs, now, src, dest, rest + pushed, visited + {top.0}, ready)
  {
    assert Firsts(stack) == Firsts(rest) + [top.0] && forall i :: 0 <= i < |rest| ==> rest[i] == stack[i];
    WorkAdvances(fs, src, dest, rest, top, pushed, visited);
    ArrivedStep(fs, src, visited, top.0);
  }

  lemma VisitingEnds(fs: Files, now: Files, src: Path, dest: Path, stack: seq<(Path, Path)>, visited: set<Path>, ready: bool)
    requires WellFormed(fs) && IsDir(fs, src) && stack == []
    requires Visiting(fs, now, src, dest, stack, visited, ready)
    ensures ready ==> IsCopy(fs, now, src, dest)
  {
    assert Firsts(stack) == [];
    if ready { AllArrived(fs, now, src, dest, visited); }
  }

  lemma FewerLeft(all: set<Path>, visited: set<Path>, dir: Path)
    requires dir in all - visited
    ensures |all - (visited + {dir})| < |all - visited|
  {
    assert all - (visited + {dir}) == (all - visited) - {dir};
  }

  lemma ArrivedStep(fs: Files, src: Path, visited: set<Path>, dir: Path)
    requires src <= dir
    ensures Arrived(fs, src, visited + {dir}) == Arrived(fs, src, visited) + Taken(fs, dir)
  {
    forall p | p in Taken(fs, dir) ensures src < p {
      assert p[..|dir|] == dir;
    }
  }

  lemma ImageArrived(fs: Files, src: Path, dest: Path, visited: set<Path>, q: Path)
    requires WellFormed(fs) && IsDir(fs, src) && Worklist(fs, src, [], visited)
    ensures IsImage(fs, src, dest, q) <==> dest <= q && Origin(src, dest, q) in Arrived(fs, src, visited)
  {
    if IsImage(fs, src, dest, q) {
      var p := Origin(src, dest, q);
      if p != src { EntryArrived(fs, src, visited, p); }
    }
  }

  lemma EntryArrived(fs: Files, src: Path, visited: set<Path>, p: Path)
    requires WellFormed(fs) && IsDir(fs, src) && Worklist(fs, src, [], visited)
    requires p in fs && src <= p && p != src
    ensures src < p && Up(p) in visited
  {
    assert src <= Up(p);
    WorklistDone(fs, src, visited, Up(p));
  }

  lemma AllArrived(fs: Files, fs': Files, src: Path, dest: Path, visited: set<Path>)
    requires WellFormed(fs) && IsDir(fs, src) && Worklist(fs, src, [], visited)
    requires Partial(fs, fs', src, dest, Arrived(fs, src, visited))
    ensures IsCopy(fs, fs', src, dest)
  {
    forall q
      ensures IsImage(fs, src, dest, q) <==> dest <= q && Origin(src, dest, q) in Arrived(fs, src, visited)
    {
      ImageArrived(fs, src, dest, visited, q);
    }
  }

  /** The elements of a listing that a copy takes along. */
  function TakenOf(fs: Files, listed: seq<Path>): set<Path> {
    set p | p in listed && p in fs && !fs[p].Symlink?
  }

  /** The source directory still lists what it listed before the copy began. */
  lemma SameChildren(fs: Files, now: Files, src: Path, dest: Path, copied: set<Path>, ready: bool, dir: Path)
    requires Separate(src, dest) && src <= dir && Copying(fs, now, src, dest, copied, ready)
    ensures Children(now, dir) == Children(fs, dir)
  {
    forall p | p != [] && Up(p) == dir ensures p in now <==> p in fs {
      assert src <= p;
      SourceStays(fs, now, src, dest, copied, ready, p);
    }
  }

  /** What is below the source stays, and is unchanged until it is handled. */
  lemma SourceStays(fs: Files, now: Files, src: Path, dest: Path, copied: set<Path>, ready: bool, p: Path)
    requires Separate(src, dest) && src <= p && Copying(fs, now, src, dest, copied, ready)
    ensures p in now <==> p in fs
    ensures p in fs && p !in copied ==> now[p] == fs[p]
  {
    if src == dest {
      assert Origin(src, dest, p) == p;
    } else {
      SourceIsOutside(src, dest, p);
    }
  }

  predicate ImagesOf(stack: seq<(Path, Path)>, src: Path, dest: Path) {
    forall i :: 0 <= i < |stack| ==> src <= stack[i].0 && stack[i].1 == Image(src, dest, stack[i].0)
  }

  /** Before an entry is handled, it is unchanged at the source and its place is ready. */
  lemma EntryReady(fs: Files, now: Files, src: Path, dest: Path, copied: set<Path>, ready: bool, dir: Path, entry: Path)
    requires Separate(src, dest) && src <= dir && IsDir(fs, dir) && dir in copied
    requires IsChild(fs, dir, entry) && entry !in copied
    requires Copying(fs, now, src, dest, copied, ready)
    ensures src <= entry && Image(src, dest, entry) == Image(src, dest, dir) + [Last(entry)]
    ensures entry in now && now[entry] == fs[entry]
    ensures var entryDest := Image(src, dest, entry);
            && (entryDest in now && now[entryDest].Symlink? ==> fs[entry].Symlink?)
            && (ready && !fs[entry].Symlink? ==>
                  && entryDest != [] && IsDir(now, Up(entryDest))
                  && (entryDest in now ==> now[entryDest].Dir? == fs[entry].Dir?))
  {
    assert src <= entry by { assert entry[..|dir|] == dir; }
    SourceStays(fs, now, src, dest, copied, ready, entry);
    OriginOfImage(src, dest, entry);
    OriginOfImage(src, dest, dir);
    var entryDest := Image(src, dest, entry);
    assert entryDest == Image(src, dest, dir) + [Last(entry)] by {
      assert entry == dir + [Last(entry)];
    }
    assert Up(entryDest) == Image(src, dest, dir);
  }

  /** After an entry has been handled, the copy has progressed by exactly that entry. */
  lemma EntryDone(fs: Files, before: Files, after: Files, src: Path, dest: Path, copied: set<Path>, ready: bool, entry: Path, ok: bool)
    requires Separate(src, dest) && src <= entry && entry in fs
    requires entry in before && before[entry] == fs[entry]
    requires Copying(fs, before, src, dest, copied, ready)
    requires var entryDest := Image(src, dest, entry);
             && (forall q :: q != entryDest ==> (q in after <==> q in before) && (q in after ==> after[q] == before[q]))
             && (entryDest in after && after[entryDest].Symlink? ==> fs[entry].Symlink?)
             && (fs[entry].Symlink? ==> ok && after == before)
             && (ready && !fs[entry].Symlink? ==> ok && after == before[entryDest := CopiedTo(before, entry, entryDest)])
    ensures SameOutside(fs, after, dest) && NoLinkInTheWay(fs, after, src, dest)
    ensures ready ==> ok
    ensures Copying(fs, after, src, dest, if fs[entry].Symlink? then copied else copied + {entry}, ready)
  {
    OriginOfImage(src, dest, entry);
    if ready && !fs[entry].Symlink? {
      PartialStep(fs, before, after, src, dest, copied, entry);
    }
  }
}
