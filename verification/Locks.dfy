/** WebDAV locks (section 6 of RFC 4918): lock values, expiry, and the evaluation of `If`
    conditions against the locks of one resource. Times are counted from a common origin. */
module Locks {
  import opened Prelude
  import opened Paths
  import opened IfHeader

  type Token = string

  datatype Depth = Zero | One | Infinity

  datatype LockScope = Exclusive | Shared

  datatype LockInfo = LockInfo(
    scope: LockScope,
    token: Token,
    owner: Option<string>,
    created: nat,
    timeout: Option<nat>,
    depth: Depth
  ) {
    /** `is_expired`: a lock created in the future has an elapsed time of zero. */
    predicate IsExpired(now: nat) {
      timeout.Some? && (if now <= created then 0 else now - created) >= timeout.value
    }

    predicate IsExclusive() {
      scope.Exclusive?
    }
  }

  type LockStore = map<Path, seq<LockInfo>>

  function LocksAt(store: LockStore, p: Path): seq<LockInfo> {
    if p in store then store[p] else []
  }

  /** `active_slice`. */
  function Active(infos: seq<LockInfo>, now: nat): (r: seq<LockInfo>)
    ensures forall l :: l in r <==> l in infos && !l.IsExpired(now)
  {
    Filter(infos, (l: LockInfo) => !l.IsExpired(now))
  }

  lemma NoneActive(infos: seq<LockInfo>, now: nat)
    ensures Active(infos, now) == [] <==> forall l :: l in infos ==> l.IsExpired(now)
  {
    var active := Active(infos, now);
    if active != [] {
      assert active[0] in active;
    } else {
      assert forall l :: l in infos && !l.IsExpired(now) ==> l in active;
    }
  }

  predicate EvalActive(c: IfCondition, active: seq<LockInfo>) {
    match c
    case StateToken(t) =>
      if t == "DAV:no-lock" then active == []
      else exists l :: l in active && l.token == t
    case Not(inner) => !EvalActive(inner, active)
  }

  predicate Applicable(l: IfList, requestPath: string) {
    l.resourceTag.None? || l.resourceTag.value == requestPath
  }

  /** `eval_if`: with no list, no active lock may exist; otherwise every applicable list must
      hold, and a header without applicable lists passes. */
  predicate EvalIf(lists: seq<IfList>, infos: seq<LockInfo>, requestPath: string, now: nat) {
    if lists == [] then Active(infos, now) == []
    else
      var active := Active(infos, now);
      forall l :: l in lists && Applicable(l, requestPath) ==>
        forall c :: c in l.conditions ==> EvalActive(c, active)
  }

  /** `positive_tokens_iter`: the tokens a list presents. */
  function PositiveTokens(conditions: seq<IfCondition>): (r: seq<Token>)
    ensures forall t :: t in r <==> StateToken(t) in conditions
  {
    if conditions == [] then []
    else
      (match conditions[0]
       case StateToken(t) => [t]
       case Not(_) => [])
      + PositiveTokens(conditions[1..])
  }

  predicate IsLockToken(c: IfCondition) {
    match c
    case StateToken(t) => t != "DAV:no-lock"
    case Not(StateToken(t)) => t != "DAV:no-lock"
    case Not(Not(_)) => false
  }

  predicate HasLockToken(l: IfList) {
    exists c :: c in l.conditions && IsLockToken(c)
  }

  /** Lists are conjoined: a header that puts two others together holds exactly when both hold. */
  lemma EvalIfConcat(a: seq<IfList>, b: seq<IfList>, infos: seq<LockInfo>, requestPath: string, now: nat)
    requires a != [] && b != []
    ensures EvalIf(a + b, infos, requestPath, now) <==>
            EvalIf(a, infos, requestPath, now) && EvalIf(b, infos, requestPath, now)
  {
    assert forall l :: l in a + b <==> l in a || l in b;
  }
}
