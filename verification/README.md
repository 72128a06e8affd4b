# rshs: a verified model of locks, parsers, copies, dates and caches

rshs is an HTTP and WebDAV file server. This project models the parts of it that carry state,
branching or arithmetic, and proves what they promise.

| module | what it models |
|---|---|
| `Paths`, `Percent`, `PathGuard`, `Resolution` | canonical paths, the ancestor test on their bytes, percent-encoding, resolution of write targets with its cache, resolution of existing nodes, and when the two agree |
| `IfHeader` | the `If` header: grammar, byte-cursor parser, rendering |
| `Locks`, `LockHandlers`, `LockRuns`, `Enforcement` | the lock store: the guarded sections of LOCK, UNLOCK and cleanup, every interleaving of them, and the admission of requests |
| `HandlerWrites`, `Coverage`, `Confinement` | what each handler writes in a file system with links, against what the enforcement layer looks up |
| `Calendar`, `Timestamps` | day count to date, RFC 3339 and RFC 1123 texts |
| `FileTree`, `CopyMove`, `CopyIntoSelf`, `Transfers`, `PropFind` | file trees, the stack loops over them, COPY, MOVE and PROPFIND |
| `Credentials`, `AuthCache`, `ShadowFile` | users, the cache of verified headers under every interleaving, the shadow file |
| `Text`, `CharRefs`, `PropPatchParser`, `PropPatchBody`, `PropPatch` | numeric references, the PROPPATCH body and its event machine, and its effect on dead properties |

How the model is built:

- A section of code that runs while a guard is held is one function from the old state to the new
  state (`LockSection`, `CommitSection`, `UnlockSection`, `CleanupSection`). A class runs the same
  section in place and is proved equal to the function. A transition system over these sections
  (`LockRuns.Step`, `AuthCache.Step`) gives every interleaving of concurrent requests, clock ticks and
  cleanup; theorems about runs quantify over all of its event sequences.
- LOCK has two sections: the lock-null path gives up the guard between them, so other events may
  happen in between.
- The iteration order of a hash map and of a directory is arbitrary wherever it matters.
- The clock never runs backwards, and lock tokens are fresh. The file system's answers, password
  hashing and the header hash are parameters.
- Loops of the source are loops here, proved equal to a function; what the source promises is proved
  about that function.

Some promises turned out to hold only under a condition, or not at all; each is proved exactly:

- `IfHeader.ParseInvertsRender`: a header is read element by element exactly when no untagged list directly
  follows a tagged list or a bare token, whose tag it would take. Entity tags are passed over.
- `Coverage.GuardedIff`: locks are looked up by `resolve_and_guard`, and several handlers act on what
  `resolve_existing` finds, or write through links. The layer guards a request in every reachable state
  exactly when it looks up everything the request writes outside the collections it is about. For DELETE
  and PROPPATCH that means a path without `.` and `..` segments whose last name is no symbolic link
  (`Coverage.NodeRequestGuardedIff`; `Coverage.DotSegmentIsNotGuarded` and `Coverage.LinkIsNotGuarded`
  are inputs where it fails); for PUT, that no link leads elsewhere, be it to a file or to a place where
  one is created (`Coverage.PutGuardedIff`); for COPY and MOVE, that all the copying writes stays within the
  destination (`Coverage.CopyGuardedIff`, `Coverage.MoveGuardedIff`), for which it is enough that no link at
  or below the destination leads out of it (`Confinement.ConfinedIsGuarded`; a link inside the destination is
  an input where it fails, `Coverage.InnerLinkIsNotGuarded`). LOCK makes a file below somebody else's lock
  (`Coverage.LockGuardedIff`). Locks on members of a collection do not refuse a request that takes the whole
  collection (`Coverage.AdmittedWritesIff`, `Coverage.MembersAreNotGuarded`).
- `Coverage.OvertakenOnlyByGrant`: the layer drops its guard before the handler runs; a guarded write lands
  on a covered path only if a lock has been granted in between.
- `Resolution.UnlockFindsLockIff`: when UNLOCK on a path finds the lock that LOCK on that path has put.
- `Enforcement.HolderAdmittedIff`, `Enforcement.HolderBelowIsRefused`: a client that holds an infinity
  lock and sends its token in an untagged list is refused everywhere below the lock, because the
  condition is also evaluated against the target's own locks.
- `Enforcement.AdmittedWithoutTokenIff`: a header that presents no token passes a covered path exactly
  when all its applicable conditions deny tokens that are not there.
- `Enforcement.ExpiredLocksBlock`: an expired lock that has not been cleaned up can refuse a new
  exclusive lock. The comment in `try_new_exclusive` says that only shared locks remain at that point;
  expired exclusive ones may remain too.
- `CopyMove.FileSystem.CopyDir`, `CopyIntoSelf.NeverDone`, `CopyIntoSelf.AboveEnds`: the recursive copy ends
  with a copy in place when source and destination are apart; it never runs out of work when the destination
  lies below the source, and does when it lies above.
- `Transfers.SameNodeRefusedIff`: a COPY or MOVE to its own source is meant to be refused, and is exactly when
  the root directory is given as an absolute path and the destination's directory is spelled by its canonical
  path. With the default root `.` it never is, and the file ends empty (`Transfers.SelfCopyEmptiesFile`).
  `CopyMove.CopyKeepsSourceIff` says exactly when COPY leaves its source alone.
- `AuthCache.CacheIsExactIff`: the auth cache is exact exactly when it is off or no refused header
  collides with an accepted one.
- `ShadowFile.RoundTripIff`, `ShadowFile.ValidatesTheSameIff`, `ShadowFile.ReloadIff`: which users
  survive the shadow file.
- `PropPatchParser.ParseInvertsRenderIff`: a PROPPATCH instruction arrives exactly when its name is not
  mistaken for structure, the element declares its own namespace or has none
  (`PropPatchParser.ElementNameIsExpandedIff`), and the value is at most one piece of text without `&`
  and without white space at its ends (`PropPatchParser.ValueArrivesIff`; of `a&amp;b` only `a` is
  stored, `PropPatchParser.EntityCutsValue`; an element inside a property takes its value,
  `PropPatchParser.InnerElementTakesValue`).
- `PropPatchBody.DecodeOfBody`, `PropPatchBody.CommentIsLeftOpen`: numeric references are decoded in the whole
  body before it is read as XML. For the requests considered here that is the same as decoding the pieces; a
  reference mark that a comment leaves open takes the end of the comment with it.
- `PropPatchParser.ClarkRoundTripIff`: which keys can be taken apart again.

Where the code and its documentation differ, the model follows the code: `IfList` is documented as a
disjunction of lists (src/webdav/ls.rs:65), but `eval_if` requires every applicable list to hold.

## Model

| member | source | states |
|---|---|---|
| Paths.AncestorIsStrictPrefix | src/webdav/ls.rs:353-366 | on canonical paths the byte test of `is_ancestor_of` holds exactly for a strict component prefix |
| Paths.TestAncestor | src/webdav/ls.rs:353-366 | the byte test, run on two canonical paths, answers whether one is a proper ancestor of the other |
| Paths.ComponentsOfRender | src/webdav/ls.rs:359 | splitting the bytes of a canonical path gives back its components, which is what `starts_with` compares |
| IfHeader.SkipWs | src/webdav/ls.rs:219-224 | the cursor ends at the first character that is not blank, and never passes the end by its own doing |
| IfHeader.ReadAngleBracket | src/webdav/ls.rs:226-236 | reads exactly the text before the first `>`, or nothing when there is none; all indexing is in range |
| IfHeader.ReadList | src/webdav/ls.rs:238-280 | reads exactly the conditions the grammar gives for the rest of the input, terminates, and leaves the cursor at most one past the end |
| IfHeader.ReadTaggedRun | src/webdav/ls.rs:195-200 | every list of a run after a resource tag is read, and carries that tag |
| IfHeader.ReadEntry | src/webdav/ls.rs:187-213 | one turn of the outer loop reads what the grammar says and always advances |
| IfHeader.ParseIfHeader | src/webdav/ls.rs:171-217 | total on every header value: terminates with all indexing in range, and returns the grammar's meaning of the text |
| IfHeader.NextItemOfCondition | src/webdav/ls.rs:251-274 | a rendered token or once-negated token is read back, with the input after it |
| IfHeader.ListBodyOfRender | src/webdav/ls.rs:238-280 | the rendering of any list of conditions and entity tags is read back as its conditions in order; entity tags are passed over |
| IfHeader.InheritIsIdentity | src/webdav/ls.rs:194-205 | reading tags on changes nothing exactly when no untagged list directly follows a tagged list or a bare token |
| IfHeader.ParseInvertsRender | src/webdav/ls.rs:171-280 | every header made of lists, bare tokens and other text is read element by element, a bare token as an untagged list of that one token, if and only if no untagged list directly follows a tagged list or a bare token, whose tag it then takes |
| IfHeader.UnclosedBracketEnds | src/webdav/ls.rs:188-191 | a header that breaks off inside a tag or bare token is read up to there |
| Locks.Active | src/webdav/ls.rs:291-293 | exactly the locks that have not expired |
| Locks.PositiveTokens | src/webdav/ls.rs:107-112 | exactly the tokens that stand in the list without `Not` |
| Locks.EvalIfConcat | src/webdav/ls.rs:446-465 | lists are conjoined: two headers put together hold exactly when both hold |
| LockHandlers.CheckExistingExclusive | src/webdav/ls.rs:480-490 | no active exclusive lock gives nothing; otherwise the first one decides: its token if presented, else 423 |
| LockHandlers.CleanupSection | src/server/cleanup.rs:18-21 | a path stays exactly when it holds an unexpired lock, and keeps exactly its unexpired locks |
| LockHandlers.Candidates | src/webdav/ls.rs:415-424 | exactly the proper ancestors of the target that hold an active infinity lock, in any map order |
| LockHandlers.FirstRefreshable | src/webdav/ls.rs:427-434 | the first active infinity lock whose token is presented, or none if there is none |
| LockHandlers.SearchAncestors | src/webdav/ls.rs:415-436 | finds a presented active infinity lock of some proper ancestor, and reports none only if there is none |
| LockHandlers.LockTable.FindAndRefreshAncestorLock | src/webdav/ls.rs:407-437 | refreshes the creation time of exactly the lock found, changing nothing else in the store |
| LockHandlers.LockTable.Lock | src/handlers/locks.rs:64-118 | the whole first section: new store and outcome equal the section function, for some admissible search result |
| LockHandlers.LockTable.CommitLockNull | src/handlers/locks.rs:124-142 | the second section re-checks the entry: it grants only if the entry is still empty, else 423 |
| LockHandlers.LockTable.Unlock | src/handlers/locks.rs:297-308 | removes the locks with the token at the path; 204 if any went, else 403 |
| LockHandlers.LockTable.Cleanup | src/server/cleanup.rs:18-21 | the two nested `retain` calls leave exactly what the section function says |
| LockRuns.DecideKeepsEntryOk | src/handlers/locks.rs:82-110 | whatever the LOCK decision keeps and appends is again compatible lock by lock; its token is new or the one being refreshed |
| LockRuns.StepKeepsInv | src/handlers/locks.rs:64-157 | every step (both LOCK sections, UNLOCK, refresh, cleanup, clock) keeps compatibility, token uniqueness and keys below the root |
| LockRuns.ReachableInv | src/handlers/locks.rs:64-157 | the invariant holds in every reachable state |
| LockRuns.MutualExclusion | src/handlers/locks.rs:64-157 | in every reachable state the unexpired locks of a path are all shared, or exactly one and exclusive |
| LockRuns.TokensAreUnique | src/handlers/locks.rs:83-89 | in every reachable state two different places of the store hold different tokens |
| LockRuns.KeysBelowRoot | src/handlers/locks.rs:42-79 | every key of the store lies strictly below the root in every run |
| LockRuns.UnlockRemovesOne | src/handlers/locks.rs:297-308 | UNLOCK answers 204 exactly when the path holds the token; then exactly one lock goes and every other stays in place; otherwise 403 and nothing changes |
| LockRuns.DecisionIff | src/handlers/locks.rs:79-96 | LOCK at a resource is refused, with 423, exactly when one of its locks blocks the request; it takes the lock-null path exactly when there is no lock |
| LockRuns.DecisionMeans | src/handlers/locks.rs:82-96 | a granted LOCK drops only expired locks and locks whose token is presented, and keeps its token exactly when it renews a lock |
| LockRuns.DecisionKeepsIff | src/handlers/locks.rs:82-96 | exactly which locks stay beside a granted one: with an active exclusive lock all that are not exclusive, otherwise none for an exclusive request and all but the renewed one for a shared request |
| LockRuns.RefreshesIff | src/webdav/ls.rs:407-437 | LOCK refreshes a lock exactly when it presents the token of an unexpired infinity lock on a proper ancestor |
| LockRuns.LockNullIsGranted | src/handlers/locks.rs:119-142 | the two sections together: whatever happens in between, the request gets the lock it asked for unless somebody was granted a lock at the same resource or creating the file failed |
| LockRuns.LockNullIsGrantedIff | src/handlers/locks.rs:119-142 | over any run in between, the pending request is still the same and is granted exactly when no lock is left at its resource then, else 423 |
| LockRuns.EndedIsOver | src/handlers/locks.rs:119-142 | a request whose second section has run, or whose file could not be created, is over |
| LockRuns.LoneLock | src/handlers/locks.rs:39-158 | a run of LOCK, commit and clock reaches a store that holds exactly the lock asked for |
| LockRuns.StepKeepsLock | src/handlers/locks.rs:82-96 | no step removes or alters an unexpired lock whose token it does not present |
| LockRuns.Persistence | src/handlers/locks.rs:82-96 | an unexpired lock survives unchanged every run that does not present its token, until it times out |
| LockRuns.GrantIsHeld | src/handlers/locks.rs:99-142 | a LOCK answered with a lock has put exactly that lock in the store, created now |
| LockRuns.GrantIsAsAsked | src/handlers/locks.rs:99-142 | in either section, a granted lock has the scope, depth, owner and timeout of the request, starts now, lies at the path asked for, and its token is new or presented |
| LockRuns.RefreshIsOfAncestor | src/webdav/ls.rs:427-434 | a refreshed lock is an unexpired infinity lock of a proper ancestor whose token is presented, and only its time changes |
| LockRuns.GrantExpiresIff | src/webdav/mod.rs:218-223 | over every run, a granted lock is expired exactly when it has a timeout and that has passed since the grant |
| LockRuns.GrantPersists | src/handlers/locks.rs:99-142 | a granted lock is held and unexpired after every later run that does not present its token, until its timeout has passed since the grant |
| LockRuns.GrantExcludesOthers | src/handlers/locks.rs:79-129 | once an exclusive lock has been asked for and granted, until its timeout has passed or its token is presented, every LOCK at its path that does not refresh a lock of an ancestor (which answers 200) is refused with 423 in either section and changes nothing |
| Enforcement.WalkLockedAncestors | src/webdav/ls.rs:306-347 | the scan (at most ten infinity entries) or the parent walk, each proved equal to its specification |
| Enforcement.WalkUpFinds | src/webdav/ls.rs:333-345 | the parent walk finds exactly the proper ancestors at or below the root that pass the test |
| Enforcement.AlgorithmsAgree | src/webdav/ls.rs:306-347 | both algorithms equal "some proper ancestor in the store passes", for keys below the root and a test that needs an infinity lock |
| Enforcement.IsPathLockedMeans | src/middleware/lock.rs:85-105 | admission of one path without reference to either algorithm |
| Enforcement.CleanupInvisible | src/middleware/lock.rs:85-105 | for every path and `If` list, cleanup at the same instant does not change the answer, also across the threshold of ten |
| Enforcement.CleanupKeepsVerdict | src/middleware/lock.rs:28-83 | cleanup never changes the verdict on a whole request in any reachable state |
| Enforcement.LockedIffCovered | src/middleware/lock.rs:85-105 | without an `If` header a path is refused exactly when an unexpired lock covers it |
| Enforcement.VerdictIffCovered | src/middleware/lock.rs:28-83 | without an `If` header a request gets 423 exactly when an unexpired lock covers a path the layer looks up for it, and passes otherwise |
| Enforcement.VerdictByMethod | src/middleware/lock.rs:28-83 | method by method: PUT, DELETE, MKCOL and PROPPATCH depend on the source, COPY on the destination, MOVE on both, and LOCK and all others pass |
| Enforcement.PreconditionFailedIff | src/middleware/lock.rs:50-55 | 412 exactly when a checked request has an `If` header that names no token but `DAV:no-lock`, plainly or negated once, and no `Lock-Token` |
| Enforcement.GrantIsEnforced | src/middleware/lock.rs:57-79 | over runs: after a grant, until its timeout has passed or its token is presented, every request without `If` header for which the layer looks up a covered path is rejected with 423 |
| Enforcement.AdmittedWithoutTokenIff | src/webdav/ls.rs:446-465 | with a header that presents none of the tokens of the locks consulted for a covered path, the path is admitted exactly when the header is not empty and every applicable condition denies a token that none of them has |
| Enforcement.HolderAdmittedIff | src/middleware/lock.rs:85-105 | a token in an untagged list admits exactly when that lock is on the target itself and no active infinity lock is above it |
| Enforcement.HolderVerdictIff | src/middleware/lock.rs:28-83 | the same condition decides between passing on and 423 for a whole request that writes one path |
| Enforcement.TaggedTokenIff | src/webdav/ls.rs:446-465 | a token in a list tagged with the request path counts as in an untagged list; in a list tagged with another path it asks nothing, and the path is admitted whatever is locked |
| Enforcement.TransferVerdictIff | src/middleware/lock.rs:28-83 | COPY and MOVE that name a token under the tag of each path pass exactly when the destination, and for MOVE the source, holds its token and nothing above it is locked as a whole |
| Enforcement.HolderBelowIsRefused | src/middleware/lock.rs:97-104 | the holder of an infinity lock is refused below it when it sends the token untagged |
| Enforcement.ExpiredLocksBlock | src/handlers/locks.rs:251-260 | with no active lock, an exclusive LOCK is refused exactly when a left-over expired lock has a token the request does not present |
| Enforcement.ExpiredLockBlocksUntilCleanup | src/handlers/locks.rs:251-260 | such a state is reached by a run: a timed-out lock refuses a new exclusive LOCK, and after cleanup the same request is let through |
| Resolution.KeyIsNodeIff | src/utils/path.rs:51-130 | the key under which a path is looked up is the node `resolve_existing` finds exactly when the trimmed path has no `.` or `..` segment and its last name is no symbolic link |
| Resolution.ComponentsOfUri | src/middleware/lock.rs:47 | trimming slashes at the end changes none of the components a path names |
| Resolution.ExistingOfPath | src/utils/path.rs:51-70 | a request for a canonical path finds the node it leads to, if that lies at or below the root; with `/` or `/.` at its end it finds directories only |
| Resolution.CanonicalizeStep | src/utils/path.rs:60 | `..` leads to the directory above, every other name to where it leads, and both through directories only |
| Resolution.KeyIsBelowRoot | src/utils/path.rs:100-130 | every key is canonical and strictly below the root, with the canonicalization of this file system |
| Resolution.UnlockFindsLockIff | src/handlers/locks.rs:42-294 | UNLOCK resolves a path to the key LOCK used for it exactly when the resource still exists under the key and is no link, and a path with a slash at its end names a directory |
| Coverage.WritesCoveredIff | src/handlers/http.rs:129-169 | a handler writes a covered path exactly when one of its targets is covered, or a lock lies inside something it takes as a whole |
| Coverage.GuardedIff | src/middleware/lock.rs:57-79 | in every reachable state, locked members apart, a request that would write a covered path is refused, exactly when the layer looks up everything it writes outside the collections it is about |
| Coverage.AdmittedWritesIff | src/middleware/lock.rs:57-79 | such a request is admitted and writes a covered path exactly when nothing it looks up is covered and a lock inside a collection it is about covers something it writes |
| Coverage.NodeRequestGuardedIff | src/handlers/http.rs:132 | DELETE and PROPPATCH of an existing node, which write the node and for DELETE everything below it, are guarded exactly when the path is plain and its last name is no symbolic link |
| Coverage.PutGuardedIff | src/handlers/http.rs:81-85 | PUT is guarded exactly when opening the file fails, or writes the path itself or nothing below the root: not through a link to another file, and not through one to a place where a file is created |
| Coverage.PutWrites | src/handlers/http.rs:81-85 | and exactly what it writes: its own path where nothing is, the file it leads to, or the place a link names |
| Coverage.MkcolIsGuarded | src/handlers/webdav.rs:80-90 | MKCOL writes its own key, where nothing is, and is always guarded |
| Coverage.LockGuardedIff | src/handlers/locks.rs:119-122 | LOCK, which the layer does not look at, is guarded exactly when something is at its path already or nothing above it can be locked; else it makes a file below somebody else's infinity lock |
| Coverage.LockActsIff | src/handlers/locks.rs:77-119 | without tokens LOCK goes on to make its file exactly where no lock is left |
| Coverage.CopyGuardedIff | src/handlers/webdav.rs:134-262 | COPY is guarded exactly when all it writes below the root, step by step and through links, lies at or below its destination |
| Coverage.CopyFileGuardedIff | src/handlers/webdav.rs:155-179 | COPY of a file is guarded exactly when its destination is no link to another file, or to a place where one is created, outside itself and below the root |
| Coverage.CopyFileWritesIff | src/handlers/webdav.rs:155-197 | exactly what COPY of a file writes: what its destination leads to, the destination itself, and everything in a directory in its place |
| Coverage.FileCompletesIff | src/handlers/webdav.rs:155-188 | COPY or MOVE of a file comes to its end unless the destination is a link to nowhere, or a directory that goes with the source in it |
| Coverage.DeadLinkStopsDirectory | src/handlers/webdav.rs:169-177 | a directory is not copied onto a link that leads nowhere, and nothing is written |
| Coverage.ShallowCopyIff | src/handlers/webdav.rs:169-175 | a shallow COPY of a directory writes its destination at most, and only where no directory is yet |
| Coverage.MoveIgnoresDepth | src/handlers/webdav.rs:169-175 | what MOVE writes does not depend on the depth |
| Coverage.MoveGuardedIff | src/handlers/webdav.rs:134-262 | MOVE is guarded exactly when nothing it writes strays from destination, source and key, and a source that it can take away, outside the destination, is named by a plain path without a link at its end |
| Coverage.InnerLinkIsNotGuarded | src/handlers/webdav.rs:252 | COPY of a directory to an existing one writes through a link among its names: in a reachable state the request is admitted and writes a locked node, or creates one where a lock has stayed |
| Coverage.NewDirectoryIsWritten | src/handlers/webdav.rs:240-248 | a subdirectory of the source is created where nothing is at its place |
| Confinement.CopiesWithinDestination | src/handlers/webdav.rs:208-262 | whatever the copy has created meanwhile, all it writes lies at or below a destination that no link leads out of |
| Confinement.ConfinedIsGuarded | src/handlers/webdav.rs:134-262 | so COPY to such a destination is guarded, and MOVE if its source is named by a plain path without a link at its end |
| Confinement.CopiesToPlaces | src/handlers/webdav.rs:216-262 | with no link at or below the destination and source and destination apart, a copy writes only the places of nodes of the source |
| Confinement.CompletedCopyWritesAll | src/handlers/webdav.rs:216-262 | and a copy that comes to its end has written the place of every file reached from the source without links |
| Confinement.MovedIsCopied | src/handlers/webdav.rs:182-188 | MOVE takes a directory away only if every file reached in it without links can be written at its place |
| Confinement.OneFileMoves | src/handlers/webdav.rs:134-188 | and it is taken away then: a directory with one file in it is moved to a free place |
| HandlerWrites.TargetIsCanonical | src/handlers/webdav.rs:216-262 | every path a handler writes, in any run of the recursive copy, is canonical, as lock keys are |
| HandlerWrites.PutIsThere | src/handlers/webdav.rs:240-259 | what an entry puts where nothing was is there from then on, as the file or directory it is |
| Coverage.DotSegmentIsNotGuarded | src/utils/path.rs:80-84 | `DELETE /./f` acts on a node and is looked up nowhere |
| Coverage.LinkIsNotGuarded | src/handlers/http.rs:132-157 | `DELETE /a` for a link `a` acts on the link's target and is looked up under the link's own path |
| Coverage.MembersAreNotGuarded | src/handlers/http.rs:143 | in a reachable state a guarded DELETE of a collection is admitted and removes a locked member |
| Coverage.GrantProtectsWrites | src/middleware/lock.rs:57-79 | over runs: after a grant, until timeout or presentation, every guarded request that would write what the lock covers gets 423, locked members apart |
| LockRuns.HeldIsOldOrGranted | src/handlers/locks.rs:64-157 | over any run, an active lock at the end was active at the start or has been granted in between |
| Coverage.OvertakenOnlyByGrant | src/middleware/lock.rs:81-82 | a guarded request that was admitted, and whose handler runs later, writes a covered path, locked members apart, only if a lock on a path looked up for it has been granted in between |
| Coverage.CanBeOvertaken | src/middleware/lock.rs:81-82 | and that happens: in some run a request is admitted and a lock then granted on what it is about to write |
| PathGuard.AcceptedHasFileName | src/utils/path.rs:72-129 | every accepted target ends in a proper name, so `file_name().unwrap()` cannot fail |
| PathGuard.ResolvedIsBelowRoot | src/utils/path.rs:100-130 | every accepted path is one name below a canonical directory at or below the root, hence strictly below the root |
| PathGuard.CanonicalRequestResolves | src/utils/path.rs:72-130 | every canonical path can be asked for: it resolves to its last name below the canonical parent, or fails for the stated reason |
| PathGuard.PathResolver.ResolveAndGuard | src/utils/path.rs:100-130 | after any history of calls the cached form answers like the uncached one |
| Calendar.SuccessorDays | src/utils/time.rs:115-131 | consecutive day counts convert to consecutive calendar days |
| Calendar.CivilIsTheCalendar | src/utils/time.rs:115-131 | the conversion gives the date reached by counting days from 1970-01-01, for every day count |
| Calendar.ConversionInRange | src/utils/time.rs:115-131 | every date is valid, no unsigned subtraction underflows, and the year fits a signed 32-bit number for every day count up to its maximum |
| Calendar.DaysRoundTrip | src/utils/time.rs:115-131 | the inverse day count returns the input |
| Calendar.DateOrder | src/utils/time.rs:115-131 | later days have later dates |
| Timestamps.StampOrder | src/utils/time.rs:106 | texts of zero-padded fields compare as texts exactly as their field values compare |
| Timestamps.FieldsOrder | src/utils/time.rs:97-104 | the year, month, day, hour, minute and second of a later second are later in that order |
| Timestamps.FourDigitYearIff | src/utils/time.rs:97-104 | the seconds before 253402300800 are exactly those whose year has at most four digits |
| Timestamps.Rfc3339Shape | src/utils/time.rs:106 | the text has twenty characters, with digits and separators at the places of section 5.6 of RFC 3339 |
| Timestamps.Rfc3339Order | src/utils/time.rs:91-107 | from 1970 through 9999 text order is time order and the text determines the second |
| Timestamps.Rfc3339Reads | src/utils/time.rs:91-107 | read by position, the text says the calendar date and the time of day of its second |
| Timestamps.WeekdayIsRight | src/utils/time.rs:50-71 | the day name is that of the weekday reached by counting from Thursday, 1 January 1970 |
| Timestamps.Rfc1123Determines | src/utils/time.rs:49-80 | from 1970 through 9999 the text starts with the right weekday and determines the second |
| Timestamps.Rfc1123Reads | src/utils/time.rs:49-80 | read by position, the text says the weekday, the day, the month by its name, the year and the time of day of its second, in GMT |
| FileTree.WorklistStep | src/handlers/webdav.rs:224-248 | visiting one directory and pushing its subdirectories keeps the worklist exact |
| FileTree.WorklistDone | src/handlers/webdav.rs:224-260 | when the stack is empty every directory has been visited |
| CopyMove.FileSystem.CopyEntry | src/handlers/webdav.rs:235-258 | a directory is created or found and pushed, a link is skipped, a file is copied; nothing else changes |
| CopyMove.FileSystem.CopyEntries | src/handlers/webdav.rs:226-259 | the inner loop takes along exactly the children that are not links and pushes exactly the subdirectories |
| CopyMove.FileSystem.CopyDir | src/handlers/webdav.rs:216-262 | with source and destination apart, or one: terminates on every finite tree, writes nothing outside the destination, and without clashes leaves at the destination exactly a recursive copy without links, in which a file copied onto itself is empty; links elsewhere in the destination stay |
| CopyIntoSelf.CopyTurn | src/handlers/webdav.rs:225-259 | one turn of the loop wherever source and destination lie: nothing goes, and every subdirectory is pushed with an existing place |
| CopyIntoSelf.NeverDone | src/handlers/webdav.rs:225-260 | with the destination below the source, work is left after any number of turns that did not fail |
| CopyIntoSelf.AboveEnds | src/handlers/webdav.rs:225-260 | with the source below the destination, there is a bound on the number of turns: the loop ends |
| CopyMove.FileSystem.FinishMove | src/handlers/webdav.rs:182-188 | whether or not rename succeeds, nothing is left at a source apart from the destination and nothing else changes; renaming a node to itself changes nothing |
| CopyMove.FileSystem.ClearDestination | src/handlers/webdav.rs:155-166 | a destination of the other kind is removed, and only that |
| CopyMove.FileSystem.MigrateProps | src/handlers/webdav.rs:191-197 | where the source has dead properties the destination ends with exactly those, the source keeps them for COPY or as its own destination, and no other path changes; otherwise nothing changes |
| CopyMove.FileSystem.MoveOrCopy | src/handlers/webdav.rs:120-207 | 403 exactly when the destination is spelled as the source's canonical path, 412 exactly when it exists and may not be overwritten, both without effect; otherwise the end state: COPY leaves everything outside the destination alone, a node copied to itself loses the content of its files, MOVE elsewhere leaves no source node and the destination holds all content that is not a link, whether rename succeeds or fails; a destination that holds or is below a file source is cleared at most, and the answer is 500; dead properties go along exactly when it is done |
| CopyMove.CopyKeepsSourceIff | src/handlers/webdav.rs:137-179 | COPY leaves the source's tree as it was exactly when the destination is another node, the copy is shallow, or there is no content to lose |
| CopyMove.PlacedMeans | src/handlers/webdav.rs:155-180 | place by place: the destination has what the source has but no links, keeps what it had unless it was of the other kind, and nothing else changes; a shallow copy is a directory, a file copied onto itself is empty |
| CopyMove.MovedMeans | src/handlers/webdav.rs:155-188 | place by place: nothing is left at the source; the destination has all that the source had except perhaps links, keeps what it had unless it was of the other kind, and has nothing else |
| Transfers.SameNodeRefusedIff | src/handlers/webdav.rs:134-140 | a destination that resolves to the source is refused exactly when the root directory is absolute and the destination's directory is spelled by its canonical path |
| Transfers.StartsIff | src/handlers/webdav.rs:131-150 | the handler starts to write exactly when source and destination resolve, the destination is not spelled as the source, and it does not exist or may be overwritten |
| Transfers.SelfCopyEmptiesFile | src/handlers/webdav.rs:134-179 | with a relative root directory, COPY of a file to its own path gets through the checks and leaves the file empty |
| CopyMove.MoveHappened | src/handlers/webdav.rs:182-188 | both endings of MOVE meet the same end state |
| CopyMove.AllArrived | src/handlers/webdav.rs:224-260 | when all directories have been visited, every entry reachable without links is at its matching place |
| PropFind.CollectDescendants | src/webdav/fs.rs:81-111 | every node below the root that can be examined, and is not below a directory that cannot be read, is listed exactly once under its own href, whatever the order of stack and directories |
| PropFind.ListDirectory | src/webdav/fs.rs:58-79 | the children of a directory are listed exactly once, and its subdirectories pushed with their hrefs; nothing if it cannot be read |
| PropFind.CollectEntries | src/webdav/fs.rs:26-50 | the target first, then nothing, its children or all descendants, by depth |
| PropFind.HrefRoundTrip | src/webdav/fs.rs:11-16 | percent-decoding an href gives the decoded base followed by the names joined by `/`, and splitting recovers the names (section 2.1 of RFC 3986) |
| Percent.EncodeIff | src/webdav/fs.rs:11-16 | letters, digits and `-_.~/` stand for themselves, every other byte is `%` and two upper-case hexadecimal digits |
| Percent.DecodeDigits | src/utils/path.rs:56 | `%` and two hexadecimal digits, each of either case, are one byte |
| Percent.DecodeStrayPercent | src/utils/path.rs:56 | a `%` that is not followed by two of them stands for itself |
| PropFind.ListingHrefsDistinct | src/webdav/fs.rs:81-111 | the hrefs of a listing are pairwise distinct and differ from the base's |
| AuthCache.AuthState.Lookup | src/auth.rs:169-173 | a hit is an entry that expires later than now; a poisoned lock is a miss |
| AuthCache.AuthState.Refresh | src/auth.rs:175-178 | extends an entry that is still there and never brings one back |
| AuthCache.AuthState.Cleanup | src/server/cleanup.rs:30-35 | keeps exactly the entries that expire later than now |
| AuthCache.AuthState.ValidateCached | src/auth.rs:162-203 | the uninterrupted call: answer and new cache, in every case |
| AuthCache.UninterruptedRun | src/auth.rs:162-203 | the steps of one request taken back to back are the method |
| AuthCache.CleanupKeepsHits | src/server/cleanup.rs:30-35 | eviction changes no lookup from that instant on |
| AuthCache.StepKeepsInv | src/auth.rs:162-203 | every step of every request keeps: cached keys belong to accepted headers, and every stage is consistent with plain validation |
| AuthCache.CollisionAdmits | src/auth.rs:162-180 | with a collision there is a run in which a wrong header is let in |
| AuthCache.CacheIsExactIff | src/auth.rs:142-203 | over every interleaving, each answer is what plain validation gives, or a refusal of a request whose own blocking task failed, exactly when the lifetime is less than a second or no refused header shares its key with an accepted one |
| AuthCache.InjectiveKeyIsExact | src/auth.rs:142-203 | with an injective header key cached validation equals plain validation in every run |
| AuthCache.IdleKeyMisses | src/auth.rs:166-197 | a key no request has written for a whole lifetime is not hit |
| AuthCache.IdleKeyHitsIff | src/auth.rs:166-197 | after a write and until the next one, requests with that key are let in without verification for exactly the configured lifetime, whatever else happens |
| AuthCache.SecondRequest | src/auth.rs:162-203 | a run: a client that comes back after its login is let in without verification exactly within the lifetime |
| AuthCache.PoisonedCacheIsOff | src/auth.rs:169-197 | with a poisoned lock no request hits and no step writes the cache |
| ShadowFile.Load | src/auth.rs:246-285 | the loop over the lines computes the state the line grammar gives |
| ShadowFile.Write | src/auth.rs:316-330 | fails exactly when a plaintext password cannot be hashed; otherwise writes one line per user in some order |
| ShadowFile.ParseLineOfLine | src/auth.rs:248-274 | the line of a user with an acceptable name and hash is read back, with the hash trimmed at its end |
| ShadowFile.ParseFields | src/auth.rs:248-274 | a line with white space around it and perhaps further fields gives its user and hash, the hash trimmed only when no field follows |
| ShadowFile.LastLineWins | src/auth.rs:248-281 | of several lines for one user the last one counts, and lines that cannot be read change nothing |
| ShadowFile.LoadedIsAccepted | src/auth.rs:248-281 | whatever is in the file, every loaded user has an acceptable name and hash |
| ShadowFile.RoundTripIff | src/auth.rs:239-330 | a file written in any order is read back as the state that was written exactly when every user is storable |
| ShadowFile.ValidatesTheSameIff | src/auth.rs:239-330 | with correct hashing, the reloaded state accepts exactly the same name and password pairs if and only if every name can be stored |
| ShadowFile.UnstorableNameIsLost | src/auth.rs:248-281 | a user whose name cannot be stored is locked out after a reload |
| ShadowFile.ReloadIff | src/auth.rs:239-330 | writing a loaded state and loading it again changes nothing exactly when no loaded hash ends in white space |
| ShadowFile.LoadKeepsSpace | src/auth.rs:257-262 | a hash that ends in a space is loaded when another `:` follows it |
| ShadowFile.ReloadLosesSpace | src/auth.rs:249-262 | and loses that space when it is written and loaded again |
| CharRefs.DecodeCharRefs | src/webdav/mod.rs:579-604 | the loop computes the decoding of the whole text |
| CharRefs.DecodeIsIdentityIff | src/webdav/mod.rs:579-604 | decoding leaves a text alone exactly when it holds no `&#` |
| CharRefs.DecodeUndoesEscape | src/webdav/mod.rs:579-604 | a text written wholly in decimal references is decoded to itself |
| CharRefs.DecodeDecimal | src/webdav/mod.rs:579-604 | a decimal reference is the character of its number, and nothing for a surrogate or a number beyond Unicode |
| CharRefs.DecodeHex | src/webdav/mod.rs:579-604 | the same for hexadecimal references, with `x` or `X` and digits of either case |
| CharRefs.DecodeNoNumber | src/webdav/mod.rs:591-599 | a reference without digits, or with anything else among them, disappears |
| CharRefs.DecodeConcat | src/webdav/mod.rs:579-604 | two parts of a text are decoded apart when every reference that starts in the first ends there |
| PropPatchParser.ClarkRoundTripIff | src/webdav/mod.rs:379-406 | a Clark key gives back namespace and name exactly when the namespace has no `}` and a bare name does not start with an opening brace |
| PropPatchParser.ElementNameIsRead | src/webdav/mod.rs:408-446 | every element is read with its local name and the namespace it declares itself, or none |
| PropPatchParser.EmptyNamespaceIff | src/webdav/mod.rs:419-441 | an element fails to be read exactly when it declares its own prefix with an empty namespace |
| PropPatchParser.ElementNameIsExpandedIff | src/webdav/mod.rs:419-446 | an element is read with the namespace it has in scope exactly when it declares that itself or has none, for prefixes and for the default |
| PropPatchParser.ParseRequest | src/webdav/mod.rs:633-698 | the event loop computes the run of the machine over the events |
| PropPatchParser.PiecesTaken | src/webdav/mod.rs:668-686 | the content of an open property adds it once, with its first text |
| PropPatchParser.ValueArrivesIff | src/webdav/mod.rs:636-686 | the stored value is the one the client means exactly when at most one piece of the content says anything, and that is text without `&` and without white space at its ends |
| PropPatchBody.DecodeOfBody | src/webdav/mod.rs:634 | decoding the text of a request as a whole is decoding the pieces of its values, and leaves tags and the ends of sections and comments in place, if no reference mark is left open in a piece and none stands in a tag |
| PropPatchBody.CommentIsLeftOpen | src/webdav/mod.rs:579-634 | a reference mark left open in a comment, as in `<p><!-- &# -->x;y</p>`, takes everything up to the next `;` with it, the end of the comment too |
| PropPatchParser.EscapedValueIff | src/webdav/mod.rs:634-670 | a value written in numeric references arrives exactly when it holds no `&` and no white space at its ends |
| PropPatchParser.EntityCutsValue | src/webdav/mod.rs:668-672 | of `a&amp;b` only `a` is stored |
| PropPatchParser.InnerElementTakesValue | src/webdav/mod.rs:643-686 | of `<p><q>x</q></p>` the property `q` is set to `x`, and `p` is not set |
| PropPatchParser.ElementAdds | src/webdav/mod.rs:643-691 | from any state an element adds at most one action, and none when its name is mistaken for structure |
| PropPatchParser.ParseInvertsRenderIff | src/webdav/mod.rs:633-698 | every flat request is parsed to exactly what the client means, in document order (an error when it asks nothing), if and only if every element survives: name not mistaken for structure, namespace declared on the element or none, value at most one clean text |
| PropPatch.DeadProps.Handle | src/handlers/webdav.rs:283-302 | a body that does not parse changes nothing; otherwise the actions are applied in order to the resource's properties only |
| PropPatch.KeysApart | src/webdav/mod.rs:379-385 | properties with safe names share a key only if they are the same property |
| PropPatch.LastInstructionWins | src/handlers/webdav.rs:291-302 | each property ends as its last instruction says, and is untouched where there is none |
| PropPatch.RequestMeans | src/handlers/webdav.rs:283-302 | end to end: for requests whose elements survive, each property reads back as the last instruction the client means for it |
| PropPatch.SetReadsBackIff | src/handlers/webdav.rs:283-302 | setting one property and reading it back gives the value meant exactly when the element keeps its namespace and the value is clean |
| PropPatch.InheritedPrefixesCollide | src/webdav/mod.rs:408-446 | two properties of one name whose prefixes stand for different namespaces in scope have different expanded names and are read as one |

## Left out

- HTTP, TLS, routing, tracing, the command line, HTML listings and XML response writing: plumbing or presentation.
- The request headers `Depth`, `Overwrite`, `Destination`, `Timeout` and `Lock-Token`, and the LOCK body: they reach the model as parsed values.
- Lock token generation and wall-clock jumps: tokens are assumed fresh and the clock monotone; the time does not advance inside a guarded section.
- Exclusion between an ancestor's infinity lock and a descendant's own lock: LOCK does not check it. DELETE and MOVE do not touch the lock store.
- Creation of the lock-null file: a failure is the event `LockNullFailed`, success leads to the second section; the file itself is not in the lock model; that it is made without a look at other locks is `Coverage.LockGuardedIff`.
- Input and output errors of the file system, other than the ones the handlers branch on, and removals whose errors the code ignores: removals succeed.
- Bytes that are not valid UTF-8: `to_string_lossy` and `from_utf8_lossy` are the identity here.
- Content types, sizes, dates and other metadata of listed entries: an entry is its href and whether it is a directory.
- Dead properties of descendants: the code moves only the source's own.
- Years after 9999, and times before the epoch, for which the formatters return an empty string.
- The readers and codecs of other libraries: XML tokenizing, Base64, crypt hashing. They are an event sequence, a parameter and a verifier.
- Property values that are XML elements: the machine is modelled on every event sequence, but the round trip is stated for flat values.
- Permissions and creation of the shadow file, and merging of users from the command line.
- Canonical parents that change while the server runs: `canonicalize` is a fixed function.
- CopyMove.FileSystem.Rename: the operating system's rename, which may fail for reasons of its own.
- PropFind.CollectEntries: requires a canonical target, which is what path resolution hands over; children that are links are listed but never entered, as the Linux reader has it (src/scandir.rs:182-254). The reader for other systems (src/scandir.rs:260-295) follows links and is not modelled.
- Timestamps.Rfc3339Order: stated up to the year 9999; a fifth digit breaks text order.
- CopyMove.FileSystem.CopyDir: requires that no place to which something will be copied is a symbolic link, through which the operating system would write elsewhere (which nodes are written then is `HandlerWrites.Copies`), and that source and destination are one or do not contain each other; a destination below the source is `CopyIntoSelf.NeverDone`, one above it `CopyIntoSelf.AboveEnds`, which gives the end of the loop and not its result.
- CopyMove.FileSystem.CopyFile: excludes a destination that is a symbolic link, for the same reason.
- CopyMove.FileSystem.CopyEntry: excludes a place that is a symbolic link, for the same reason; so does CopyEntries.
- CopyMove.FileSystem.FinishMove: requires that source and destination are one or do not contain each other; for a directory `CopyDir` has not ended well otherwise.
- CopyMove.FileSystem.MoveOrCopy: requires the same of links once the request gets past 403 and 412, and the same of overlap for a directory; on a failure half-way only the frame is stated.
- CopyIntoSelf.NeverDone: requires that the destination holds no symbolic links, which could cut the way down.
- Coverage.MoveGuardedIff: a destination that can be reached by rename counts as written as a whole, since a directory that holds nothing but links can be renamed onto an empty one.
- Coverage.GuardedIff: the file system changes while the request runs only by what the request itself creates. A link whose directory is missing stays broken, a link to a destination that is itself a link and is replaced keeps its old target, and what makes a request fail after its checks other than a missing directory, a directory in the place of a file or a broken link is not considered.
- PropPatchParser.ParseInvertsRenderIff: requires that no numeric reference stands in a tag, that none is left open in a piece, and that decoding makes no tag and no end of a section or comment (`PropPatchBody.CommentIsLeftOpen` shows why); the XML reader itself is modelled only on the content of properties, where it trims texts, drops blank ones and reports references apart.
