/** Promises, futures and threads as a transition system: handles that own references
    to shared states, and the steps their owners take in any order. */
module FutureProtocol {
  import opened Options
  import opened Seqs
  import opened SharedSpec

  type Addr = nat
  type HandleId = nat

  /** What the owner of a handle is doing.  A promise that is being destroyed passes
      from Breaking (it has seen no value and another reference) to Releasing.  A
      future that is waited for sleeps on the condition variable or is about to check
      again; getting means that the reference is given up afterwards.  A thread keeps
      a reference to a state that it is to make ready when it exits. */
  datatype Role =
    | Promise
    | PromiseNotifying
    | PromiseBreaking
    | PromiseBroken
    | PromiseReleasing
    | Future
    | SharedFuture
    | Waiting(shared: bool, getting: bool, sleeping: bool)
    | AtThreadExit
    | ThreadNotifying
    | ThreadReleasing

  datatype Handle = Handle(role: Role, target: Option<Addr>)

  datatype Result = Result(addr: Addr, outcome: Outcome)

  /** The states ever made, with the number of times they were freed; the handles;
      the successful attempts to set a state; and what waits for a state gave. */
  datatype World = World(subs: map<Addr, Sub>, handles: map<HandleId, Handle>, sets: seq<Addr>, results: seq<Result>)

  const EMPTY_WORLD := World(map[], map[], [], [])

  function Holders(w: World, a: Addr): set<HandleId> {
    set h | h in w.handles && w.handles[h].target == Some(a)
  }

  predicate PromiseRole(r: Role) {
    r.Promise? || r.PromiseNotifying? || r.PromiseBreaking? || r.PromiseBroken? || r.PromiseReleasing?
  }

  predicate FutureRole(r: Role) {
    r.Future? || r.SharedFuture? || r.Waiting?
  }

  /** Ready was set and the notification is still to come. */
  predicate NotifyPending(r: Role) {
    r.PromiseNotifying? || r.PromiseBroken? || r.ThreadNotifying?
  }

  // ---------- steps ----------

  datatype Event =
    | MakePromise(h: HandleId, a: Addr)
    | GetFuture(h: HandleId, f: HandleId)
    | SetValue(h: HandleId)
    | SetException(h: HandleId, p: Option<Exception>)
    | SetValueAtExit(h: HandleId, r: HandleId)
    | SetExceptionAtExit(h: HandleId, p: Option<Exception>, r: HandleId)
    | Notify(h: HandleId)
    | DestroyPromise(h: HandleId)
    | Break(h: HandleId)
    | ThreadExit(h: HandleId)
    | Release(h: HandleId)
    | StartWait(h: HandleId, getting: bool)
    | Check(h: HandleId)
    | Wake(h: HandleId)
    | Share(h: HandleId, s: HandleId)
    | CopyShared(h: HandleId, s: HandleId)
    | AssignShared(h: HandleId, rhs: HandleId)

  predicate Fresh(w: World, h: HandleId) {
    h !in w.handles
  }

  /** The handle is in a role, with a state. */
  predicate Holding(w: World, h: HandleId) {
    h in w.handles && w.handles[h].target.Some? && w.handles[h].target.value in w.subs
  }

  function Target(w: World, h: HandleId): Addr
    requires Holding(w, h)
  {
    w.handles[h].target.value
  }

  function SubOf(w: World, h: HandleId): Sub
    requires Holding(w, h)
  {
    w.subs[Target(w, h)]
  }

  function RoleOf(w: World, h: HandleId): Role
    requires h in w.handles
  {
    w.handles[h].role
  }

  /** Who may take a step, and when: each handle is used by one thread at a time.
      Promises without a state fail at once and change nothing, so that their steps
      are left out; so are destructors of handles without a state. */
  predicate Enabled(w: World, e: Event) {
    match e
    case MakePromise(h, a) => Fresh(w, h) && a !in w.subs
    case GetFuture(h, f) => Holding(w, h) && RoleOf(w, h).Promise? && Fresh(w, f)
    case SetValue(h) => Holding(w, h) && RoleOf(w, h).Promise?
    case SetException(h, _) => Holding(w, h) && RoleOf(w, h).Promise?
    case SetValueAtExit(h, r) => Holding(w, h) && RoleOf(w, h).Promise? && Fresh(w, r)
    case SetExceptionAtExit(h, _, r) => Holding(w, h) && RoleOf(w, h).Promise? && Fresh(w, r)
    case Notify(h) => Holding(w, h) && NotifyPending(RoleOf(w, h))
    case DestroyPromise(h) => Holding(w, h) && RoleOf(w, h).Promise?
    case Break(h) => Holding(w, h) && RoleOf(w, h).PromiseBreaking?
    case ThreadExit(h) => Holding(w, h) && RoleOf(w, h).AtThreadExit?
    case Release(h) =>
      Holding(w, h) && (RoleOf(w, h).PromiseReleasing? || RoleOf(w, h).ThreadReleasing? ||
                        RoleOf(w, h).Future? || RoleOf(w, h).SharedFuture?)
    case StartWait(h, getting) => Holding(w, h) && (RoleOf(w, h).Future? || (RoleOf(w, h).SharedFuture? && !getting))
    case Check(h) => Holding(w, h) && RoleOf(w, h).Waiting? && !RoleOf(w, h).sleeping
    case Wake(h) => Holding(w, h) && RoleOf(w, h).Waiting? && RoleOf(w, h).sleeping
    case Share(h, s) => Holding(w, h) && RoleOf(w, h).Future? && Fresh(w, s)
    case CopyShared(h, s) => Holding(w, h) && RoleOf(w, h).SharedFuture? && Fresh(w, s)
    case AssignShared(h, rhs) =>
      h in w.handles && RoleOf(w, h).SharedFuture? && (w.handles[h].target == None || Holding(w, h)) &&
      rhs in w.handles && RoleOf(w, rhs).SharedFuture? && (w.handles[rhs].target == None || Holding(w, rhs))
  }

  function WithSub(w: World, a: Addr, s: Sub): World {
    w.(subs := w.subs[a := s])
  }

  function WithRole(w: World, h: HandleId, r: Role): World
    requires h in w.handles
  {
    w.(handles := w.handles[h := w.handles[h].(role := r)])
  }

  function AddHandle(w: World, h: HandleId, r: Role, a: Addr): World {
    w.(handles := w.handles[h := Handle(r, Some(a))])
  }

  function DropHandle(w: World, h: HandleId): World {
    w.(handles := w.handles - {h})
  }

  /** Wakes everybody who sleeps on the condition variable of a state. */
  function NotifyAll(w: World, a: Addr): World {
    w.(handles := map h | h in w.handles ::
         if w.handles[h].target == Some(a) && w.handles[h].role.Waiting?
         then w.handles[h].(role := w.handles[h].role.(sleeping := false))
         else w.handles[h])
  }

  /** Sets a state, unless it has a value. */
  function SetIt(w: World, a: Addr, s: Sub): World {
    w.(subs := w.subs[a := s], sets := w.sets + [a])
  }

  function Next(w: World, e: Event): World
    requires Enabled(w, e)
  {
    match e
    case MakePromise(h, a) => AddHandle(WithSub(w, a, NEW_SUB), h, Promise, a)
    case GetFuture(h, f) =>
      var a := Target(w, h);
      if w.subs[a].attached then w
      else AddHandle(WithSub(w, a, AddShared(w.subs[a]).(attached := true)), f, Future, a)
    case SetValue(h) =>
      var a := Target(w, h);
      // The waiters are notified under the lock.
      if HasValue(w.subs[a]) then w else NotifyAll(SetIt(w, a, SharedSpec.SetValue(w.subs[a])), a)
    case SetException(h, p) =>
      var a := Target(w, h);
      if HasValue(w.subs[a]) then w
      else WithRole(SetIt(w, a, SharedSpec.SetException(w.subs[a], p)), h, PromiseNotifying)
    case SetValueAtExit(h, r) =>
      var a := Target(w, h);
      if HasValue(w.subs[a]) then w
      else AddHandle(SetIt(w, a, AddShared(SetValueAtThreadExit(w.subs[a]))), r, AtThreadExit, a)
    case SetExceptionAtExit(h, p, r) =>
      var a := Target(w, h);
      if HasValue(w.subs[a]) then w
      else AddHandle(SetIt(w, a, AddShared(SetExceptionAtThreadExit(w.subs[a], p))), r, AtThreadExit, a)
    case Notify(h) =>
      WithRole(NotifyAll(w, Target(w, h)), h,
               match RoleOf(w, h)
               case PromiseNotifying => Promise
               case PromiseBroken => PromiseReleasing
               case _ => ThreadReleasing)
    case DestroyPromise(h) =>
      WithRole(w, h, if !HasValue(SubOf(w, h)) && SubOf(w, h).owners + 1 > 1 then PromiseBreaking else PromiseReleasing)
    case Break(h) =>
      var a := Target(w, h);
      if HasValue(w.subs[a]) then w
      else WithRole(SetIt(w, a, SharedSpec.SetException(w.subs[a], Some(BROKEN_PROMISE))), h, PromiseBroken)
    case ThreadExit(h) =>
      WithRole(WithSub(w, Target(w, h), MakeReady(SubOf(w, h))), h, ThreadNotifying)
    case Release(h) =>
      DropHandle(WithSub(w, Target(w, h), ReleaseShared(SubOf(w, h))), h)
    case StartWait(h, getting) =>
      WithRole(w, h, Waiting(RoleOf(w, h).SharedFuture?, getting, false))
    case Check(h) =>
      var a := Target(w, h);
      var role := RoleOf(w, h);
      if !w.subs[a].ready then WithRole(w, h, role.(sleeping := true))
      else
        var v := w.(results := w.results + [Result(a, Copied(w.subs[a]))]);
        if role.getting then DropHandle(WithSub(v, a, ReleaseShared(v.subs[a])), h)
        else WithRole(v, h, if role.shared then SharedFuture else Future)
    case Wake(h) => WithRole(w, h, RoleOf(w, h).(sleeping := false))
    case Share(h, s) =>
      AddHandle(w.(handles := w.handles[h := Handle(Future, None)]), s, SharedFuture, Target(w, h))
    case CopyShared(h, s) =>
      AddHandle(WithSub(w, Target(w, h), AddShared(SubOf(w, h))), s, SharedFuture, Target(w, h))
    case AssignShared(h, rhs) =>
      var v := if w.handles[rhs].target.Some? then WithSub(w, Target(w, rhs), AddShared(SubOf(w, rhs))) else w;
      var u := if w.handles[h].target.Some? then WithSub(v, Target(w, h), ReleaseShared(v.subs[Target(w, h)])) else v;
      u.(handles := u.handles[h := Handle(SharedFuture, w.handles[rhs].target)])
  }

  // ---------- one state and its handles ----------

  type Roles = map<HandleId, Role>

  function RolesAt(w: World, a: Addr): Roles {
    map h | h in w.handles && w.handles[h].target == Some(a) :: w.handles[h].role
  }

  ghost predicate HasPromise(roles: Roles) {
    exists h :: h in roles && PromiseRole(roles[h])
  }

  ghost predicate HasFuture(roles: Roles) {
    exists h :: h in roles && FutureRole(roles[h])
  }

  ghost predicate AwaitsExit(roles: Roles) {
    exists h :: h in roles && roles[h].AtThreadExit?
  }

  ghost predicate AwaitsNotify(roles: Roles) {
    exists h :: h in roles && NotifyPending(roles[h])
  }

  /** The count is the number of handles, and the state is freed when there are none. */
  ghost predicate Counted(s: Sub, roles: Roles) {
    s.owners + 1 == |roles| && s.freed == if roles == map[] then 1 else 0
  }

  ghost predicate OnePromise(roles: Roles) {
    forall h, k :: h in roles && k in roles && PromiseRole(roles[h]) && PromiseRole(roles[k]) ==> h == k
  }

  /** What the role of a handle says about the state. */
  ghost predicate GoodRole(s: Sub, roles: Roles, h: HandleId)
    requires h in roles
  {
    match roles[h]
    case PromiseNotifying => s.ready
    case PromiseBreaking => !HasValue(s)
    case PromiseBroken => s.ready
    case PromiseReleasing => HasValue(s) || roles.Keys == {h}
    case AtThreadExit => HasValue(s)
    case ThreadNotifying => s.ready
    case ThreadReleasing => s.ready
    case Future => s.attached
    case SharedFuture => s.attached
    case Waiting(_, _, sleeping) => s.attached && (sleeping && s.ready ==> AwaitsNotify(roles))
    case _ => true
  }

  /** A state that is ready has exactly one outcome; one that has a value becomes
      ready at the latest when a thread exits; and when a future has lost its promise
      there is an outcome. */
  ghost predicate GoodState(s: Sub, roles: Roles) {
    && (s.ready ==> HasValue(s))
    && !(s.constructed && s.exception.Some?)
    && (HasValue(s) && !s.ready ==> AwaitsExit(roles))
    && (HasFuture(roles) && !HasPromise(roles) ==> HasValue(s))
  }

  ghost predicate Good(s: Sub, roles: Roles) {
    Counted(s, roles) && OnePromise(roles) && GoodState(s, roles) && forall h :: h in roles ==> GoodRole(s, roles, h)
  }

  lemma MapSize(roles: Roles, h: HandleId, r: Role)
    ensures |roles[h := r]| == if h in roles then |roles| else |roles| + 1
    ensures |roles - {h}| == if h in roles then |roles| - 1 else |roles|
  {
    assert roles[h := r].Keys == roles.Keys + {h};
    assert (roles - {h}).Keys == roles.Keys - {h};
  }

  lemma NewIsGood(h: HandleId)
    ensures Good(NEW_SUB, map[h := Promise])
  {
    var roles: Roles := map[h := Promise];
    assert roles.Keys == {h};
    assert |roles| == |roles.Keys|;
    assert PromiseRole(roles[h]);
  }

  lemma AttachIsGood(s: Sub, roles: Roles, h: HandleId, f: HandleId)
    requires Good(s, roles) && h in roles && roles[h].Promise? && f !in roles
    ensures Good(AddShared(s).(attached := true), roles[f := Future])
  {
    hide GoodState;
    hide GoodRole;
    var t, after := AddShared(s).(attached := true), roles[f := Future];
    MapSize(roles, f, Future);
    assert f in after;
    PromiseFacts(s, roles, h);
    Kept(s, roles, t, after, f);
    AttachedRole(t, after, f);
    AttachState(s, roles, h, f);
  }

  lemma AttachedRole(s: Sub, roles: Roles, f: HandleId)
    requires f in roles && (roles[f].Future? || roles[f].SharedFuture?) && s.attached
    ensures GoodRole(s, roles, f)
  {}

  lemma AttachState(s: Sub, roles: Roles, h: HandleId, f: HandleId)
    requires GoodState(s, roles) && h in roles && roles[h].Promise? && f !in roles
    ensures GoodState(AddShared(s).(attached := true), roles[f := Future])
  {
    var after := roles[f := Future];
    assert h in after && PromiseRole(after[h]);
    if k :| k in roles && roles[k].AtThreadExit? { assert after[k].AtThreadExit?; }
  }

  /** Where the promise is still in use nobody is about to release it, and a ready
      state has its notification behind it or to come. */
  lemma PromiseFacts(s: Sub, roles: Roles, h: HandleId)
    requires Good(s, roles) && h in roles && roles[h].Promise?
    ensures roles != map[] && forall k :: k in roles ==> !roles[k].PromiseReleasing?
  {
    forall k | k in roles ensures !roles[k].PromiseReleasing? {
      assert PromiseRole(roles[h]) && (PromiseRole(roles[k]) ==> k == h);
    }
  }

  /** The handles other than h are as they were, and the state means as much to them. */
  lemma Kept(s: Sub, roles: Roles, t: Sub, after: Roles, h: HandleId)
    requires Good(s, roles)
    requires forall k :: k in roles && k != h ==> k in after && after[k] == roles[k]
    requires forall k :: k in after && k != h ==> k in roles
    requires HasValue(s) ==> HasValue(t)
    requires HasValue(t) && !HasValue(s) ==> forall k :: k in roles && k != h ==> !PromiseRole(roles[k])
    requires s.ready ==> t.ready
    requires s.attached ==> t.attached
    requires t.ready ==> AwaitsNotify(after) || (s.ready && (h in roles ==> !NotifyPending(roles[h])))
    requires h !in roles && h in after ==>
               forall k :: k in roles && roles[k].PromiseReleasing? ==> HasValue(s)
    ensures forall k :: k in after && k != h ==> GoodRole(t, after, k)
  {
    forall k | k in after && k != h ensures GoodRole(t, after, k) {
      assert GoodRole(s, roles, k);
      if n :| n in roles && n != h && NotifyPending(roles[n]) {
        assert n in after && NotifyPending(after[n]);
      }
    }
  }

  /** The roles after everybody who sleeps is woken. */
  function Woken(roles: Roles): Roles {
    map h | h in roles :: if roles[h].Waiting? then roles[h].(sleeping := false) else roles[h]
  }

  /** A role may change while the state stays the same. */
  lemma RoleIsGood(s: Sub, roles: Roles, h: HandleId, r: Role)
    requires Good(s, roles) && h in roles
    requires PromiseRole(r) == PromiseRole(roles[h]) && FutureRole(r) == FutureRole(roles[h])
    requires !NotifyPending(roles[h]) && (roles[h].AtThreadExit? ==> r.AtThreadExit?)
    requires GoodRole(s, roles[h := r], h)
    ensures Good(s, roles[h := r])
  {
    hide GoodRole;
    var after := roles[h := r];
    MapSize(roles, h, r);
    Kept(s, roles, s, after, h);
    StillAwaited(roles, after, h);
  }

  lemma StillAwaited(roles: Roles, after: Roles, h: HandleId)
    requires h in roles && after.Keys == roles.Keys && forall k :: k in roles && k != h ==> after[k] == roles[k]
    requires PromiseRole(after[h]) == PromiseRole(roles[h]) && FutureRole(after[h]) == FutureRole(roles[h])
    ensures HasPromise(after) == HasPromise(roles) && HasFuture(after) == HasFuture(roles)
    ensures AwaitsExit(roles) && (roles[h].AtThreadExit? ==> after[h].AtThreadExit?) ==> AwaitsExit(after)
  {
    if k :| k in roles && PromiseRole(roles[k]) { assert PromiseRole(after[k]); }
    if k :| k in after && PromiseRole(after[k]) { assert PromiseRole(roles[k]); }
    if k :| k in roles && FutureRole(roles[k]) { assert FutureRole(after[k]); }
    if k :| k in after && FutureRole(after[k]) { assert FutureRole(roles[k]); }
    if AwaitsExit(roles) && (roles[h].AtThreadExit? ==> after[h].AtThreadExit?) {
      var k :| k in roles && roles[k].AtThreadExit?;
      assert after[k].AtThreadExit?;
    }
  }

  lemma WokenIsGood(s: Sub, roles: Roles)
    requires Good(s, roles)
    ensures Good(s, Woken(roles)) && Woken(roles).Keys == roles.Keys
    ensures forall h :: h in roles ==>
              && (NotifyPending(roles[h]) <==> NotifyPending(Woken(roles)[h]))
              && (!roles[h].Waiting? ==> Woken(roles)[h] == roles[h])
    ensures forall h :: h in roles && Woken(roles)[h].Waiting? ==> !Woken(roles)[h].sleeping
  {
    hide GoodRole;
    var after := Woken(roles);
    assert after.Keys == roles.Keys;
    assert |after| == |after.Keys| && |roles| == |roles.Keys|;
    if k :| k in roles && PromiseRole(roles[k]) { assert PromiseRole(after[k]); }
    if k :| k in after && FutureRole(after[k]) { assert FutureRole(roles[k]); }
    if k :| k in roles && roles[k].AtThreadExit? { assert after[k].AtThreadExit?; }
    forall h | h in after ensures GoodRole(s, after, h) {
      WokenRole(s, roles, h);
    }
  }

  lemma WokenRole(s: Sub, roles: Roles, h: HandleId)
    requires Good(s, roles) && h in roles
    ensures GoodRole(s, Woken(roles), h)
  {
    assert Woken(roles).Keys == roles.Keys;
    assert GoodRole(s, roles, h);
  }

  /** Only the promise could set the state, and nobody sleeps when it is done. */
  lemma SetValueIsGood(s: Sub, roles: Roles, h: HandleId)
    requires Good(s, roles) && h in roles && roles[h].Promise? && !HasValue(s)
    ensures Good(SharedSpec.SetValue(s), Woken(roles))
  {
    WokenIsGood(s, roles);
    var t, after := SharedSpec.SetValue(s), Woken(roles);
    forall k | k in after ensures GoodRole(t, after, k) {
      assert GoodRole(s, after, k);
      assert k == h || !PromiseRole(after[k]);
    }
  }

  lemma SetExceptionIsGood(s: Sub, roles: Roles, h: HandleId, p: Exception, r: Role)
    requires Good(s, roles) && h in roles && PromiseRole(roles[h]) && !HasValue(s)
    requires r.PromiseNotifying? || r.PromiseBroken?
    ensures Good(SharedSpec.SetException(s, Some(p)), roles[h := r])
  {
    var t, after := SharedSpec.SetException(s, Some(p)), roles[h := r];
    MapSize(roles, h, r);
    assert NotifyPending(after[h]);
    assert forall k :: k in roles && k != h ==> !PromiseRole(roles[k]);
    assert GoodRole(s, roles, h);
    Kept(s, roles, t, after, h);
  }

  lemma SetAtExitIsGood(s: Sub, roles: Roles, h: HandleId, t: Sub, r: HandleId)
    requires Good(s, roles) && h in roles && roles[h].Promise? && !HasValue(s) && r !in roles
    requires t == AddShared(SetValueAtThreadExit(s)) || exists p :: t == AddShared(SetExceptionAtThreadExit(s, Some(p)))
    ensures Good(t, roles[r := AtThreadExit])
  {
    var after := roles[r := AtThreadExit];
    MapSize(roles, r, AtThreadExit);
    assert after[r].AtThreadExit?;
    forall k | k in after ensures GoodRole(t, after, k) {
      if k != r {
        assert GoodRole(s, roles, k);
        assert k == h || !PromiseRole(roles[k]);
      }
    }
  }

  lemma NotifyIsGood(s: Sub, roles: Roles, h: HandleId, r: Role)
    requires Good(s, roles) && h in roles
    requires (roles[h].PromiseNotifying? && r.Promise?) || (roles[h].PromiseBroken? && r.PromiseReleasing?) ||
             (roles[h].ThreadNotifying? && r.ThreadReleasing?)
    ensures Good(s, Woken(roles)[h := r])
  {
    hide Woken;
    hide GoodRole;
    hide GoodState;
    hide Counted;
    WokenIsGood(s, roles);
    var awake := Woken(roles);
    var after := awake[h := r];
    assert after.Keys == awake.Keys;
    Notified(s, roles, after, h);
    forall k | k in after && k != h ensures GoodRole(s, after, k) {
      AwakeRole(s, awake, after, k);
    }
    SameCount(s, awake, after);
    NotifiedState(s, awake, after, h);
  }

  lemma SameCount(s: Sub, roles: Roles, after: Roles)
    requires Counted(s, roles) && after.Keys == roles.Keys
    ensures Counted(s, after)
  {
    assert |after| == |after.Keys| && |roles| == |roles.Keys|;
  }

  lemma NotifiedState(s: Sub, roles: Roles, after: Roles, h: HandleId)
    requires GoodState(s, roles) && h in roles && after.Keys == roles.Keys
    requires forall k :: k in roles && k != h ==> after[k] == roles[k]
    requires PromiseRole(after[h]) == PromiseRole(roles[h]) && FutureRole(after[h]) == FutureRole(roles[h])
    requires !roles[h].AtThreadExit?
    ensures GoodState(s, after)
  {
    StillAwaited(roles, after, h);
  }

  lemma Notified(s: Sub, roles: Roles, after: Roles, h: HandleId)
    requires Good(s, roles) && h in roles && h in after
    requires (roles[h].PromiseNotifying? && after[h].Promise?) ||
             (roles[h].PromiseBroken? && after[h].PromiseReleasing?) ||
             (roles[h].ThreadNotifying? && after[h].ThreadReleasing?)
    ensures GoodRole(s, after, h)
  {
    assert GoodRole(s, roles, h);
  }

  lemma AwakeRole(s: Sub, roles: Roles, after: Roles, k: HandleId)
    requires Good(s, roles) && k in roles && after.Keys == roles.Keys && after[k] == roles[k]
    requires roles[k].Waiting? ==> !roles[k].sleeping
    ensures GoodRole(s, after, k)
  {
    assert GoodRole(s, roles, k);
  }

  lemma ThreadExitIsGood(s: Sub, roles: Roles, h: HandleId)
    requires Good(s, roles) && h in roles && roles[h].AtThreadExit?
    ensures Good(MakeReady(s), roles[h := ThreadNotifying])
  {
    var t, after := MakeReady(s), roles[h := ThreadNotifying];
    MapSize(roles, h, ThreadNotifying);
    assert NotifyPending(after[h]);
    assert GoodRole(s, roles, h);
    Kept(s, roles, t, after, h);
    StillAwaited(roles, after, h);
  }

  /** Giving up a reference; a promise does so only when there is an outcome or nobody
      else. */
  lemma ReleaseIsGood(s: Sub, roles: Roles, h: HandleId)
    requires Good(s, roles) && h in roles
    requires roles[h].PromiseReleasing? || roles[h].ThreadReleasing? || FutureRole(roles[h])
    ensures Good(ReleaseShared(s), roles - {h})
  {
    var t, after := ReleaseShared(s), roles - {h};
    MapSize(roles, h, roles[h]);
    assert GoodRole(s, roles, h);
    Empties(roles, h);
    Kept(s, roles, t, after, h);
    if k :| k in after && FutureRole(after[k]) { assert FutureRole(roles[k]); }
    if k :| k in roles && PromiseRole(roles[k]) { assert k != h ==> PromiseRole(after[k]); }
    if k :| k in roles && roles[k].AtThreadExit? { assert after[k].AtThreadExit?; }
  }

  lemma Empties(roles: Roles, h: HandleId)
    requires h in roles
    ensures (roles - {h} == map[]) <==> |roles| == 1
    ensures roles.Keys == {h} ==> roles - {h} == map[]
  {
    MapSize(roles, h, roles[h]);
    if roles - {h} == map[] { assert |roles - {h}| == 0; }
    if |roles| == 1 { assert |(roles - {h}).Keys| == |roles - {h}|; }
  }

  lemma JoinIsGood(s: Sub, roles: Roles, h: HandleId)
    requires Good(s, roles) && h !in roles && HasFuture(roles)
    ensures Good(AddShared(s), roles[h := SharedFuture])
  {
    hide GoodState;
    hide GoodRole;
    hide HasFuture;
    var t, after := AddShared(s), roles[h := SharedFuture];
    MapSize(roles, h, SharedFuture);
    FutureFacts(s, roles);
    Kept(s, roles, t, after, h);
    AttachedRole(t, after, h);
    assert h in after;
    JoinState(s, roles, h);
  }

  lemma JoinState(s: Sub, roles: Roles, h: HandleId)
    requires GoodState(s, roles) && h !in roles && HasFuture(roles)
    ensures GoodState(AddShared(s), roles[h := SharedFuture])
  {
    var after := roles[h := SharedFuture];
    if k :| k in roles && PromiseRole(roles[k]) { assert PromiseRole(after[k]); }
    if k :| k in after && PromiseRole(after[k]) { assert PromiseRole(roles[k]); }
    if k :| k in roles && roles[k].AtThreadExit? { assert after[k].AtThreadExit?; }
  }

  /** Where there is a future, it was attached, and no promise goes without an outcome. */
  lemma FutureFacts(s: Sub, roles: Roles)
    requires Good(s, roles) && HasFuture(roles)
    ensures roles != map[] && s.attached && forall k :: k in roles && roles[k].PromiseReleasing? ==> HasValue(s)
  {
    var f :| f in roles && FutureRole(roles[f]);
    assert GoodRole(s, roles, f);
    forall k | k in roles && roles[k].PromiseReleasing? ensures HasValue(s) {
      assert GoodRole(s, roles, k) && f in roles.Keys && f != k;
    }
  }

  lemma ShareIsGood(s: Sub, roles: Roles, h: HandleId, n: HandleId)
    requires Good(s, roles) && h in roles && roles[h].Future? && n !in roles
    ensures Good(s, (roles - {h})[n := SharedFuture])
  {
    assert FutureRole(roles[h]);
    JoinIsGood(s, roles, n);
    var more := roles[n := SharedFuture];
    ReleaseIsGood(AddShared(s), more, h);
    assert more - {h} == (roles - {h})[n := SharedFuture];
    assert more != map[] && n in more - {h};
    assert ReleaseShared(AddShared(s)) == s;
  }

  // ---------- all states ----------

  ghost predicate Inv(w: World) {
    && (forall h {:trigger w.handles[h]} :: h in w.handles && w.handles[h].target.Some? ==>
          w.handles[h].target.value in w.subs)
    && (forall a {:trigger w.subs[a]} :: a in w.subs ==> Good(w.subs[a], RolesAt(w, a)))
    && (forall a :: a in w.sets <==> a in w.subs && HasValue(w.subs[a]))
    && Unique(w.sets)
    && (forall r :: r in w.results ==> ResultStands(w, r))
  }

  /** The outcome that was given is the outcome of the state still. */
  ghost predicate ResultStands(w: World, r: Result) {
    r.addr in w.subs && w.subs[r.addr].ready && Copied(w.subs[r.addr]) == r.outcome
  }

  /** An outcome never changes, and ready is never cleared. */
  predicate Lasting(s: Sub, t: Sub) {
    && (HasValue(s) ==> HasValue(t) && Copied(t) == Copied(s))
    && (s.ready ==> t.ready)
  }

  /** A step that concerns one state. */
  lemma Rebuilt(w: World, v: World, a: Addr)
    requires Inv(w) && v.subs.Keys == w.subs.Keys + {a}
    requires forall b :: b in w.subs && b != a ==> v.subs[b] == w.subs[b] && RolesAt(v, b) == RolesAt(w, b)
    requires forall h :: h in v.handles && v.handles[h].target.Some? ==> v.handles[h].target.value in v.subs
    requires Good(v.subs[a], RolesAt(v, a))
    requires a in w.subs ==> Lasting(w.subs[a], v.subs[a])
    requires v.sets == w.sets + if HasValue(v.subs[a]) && !(a in w.subs && HasValue(w.subs[a])) then [a] else []
    requires forall r :: r in v.results ==>
               r in w.results || (r.addr == a && v.subs[a].ready && Copied(v.subs[a]) == r.outcome)
    ensures Inv(v)
  {
    hide Good;
    forall r | r in v.results ensures ResultStands(v, r) {
      if r in w.results {
        assert ResultStands(w, r);
        ReadyFact(w.subs[r.addr], RolesAt(w, r.addr));
      }
    }
  }

  lemma ReadyFact(s: Sub, roles: Roles)
    requires Good(s, roles)
    ensures s.ready ==> HasValue(s)
  {}

  lemma AtAdd(w: World, h: HandleId, r: Role, a: Addr)
    requires h !in w.handles
    ensures RolesAt(AddHandle(w, h, r, a), a) == RolesAt(w, a)[h := r] && h !in RolesAt(w, a)
    ensures forall b :: b != a ==> RolesAt(AddHandle(w, h, r, a), b) == RolesAt(w, b)
  {
    forall b | b != a ensures RolesAt(AddHandle(w, h, r, a), b) == RolesAt(w, b) {}
  }

  lemma AtRole(w: World, h: HandleId, r: Role)
    requires Holding(w, h)
    ensures RolesAt(WithRole(w, h, r), Target(w, h)) == RolesAt(w, Target(w, h))[h := r]
    ensures h in RolesAt(w, Target(w, h))
    ensures forall b :: b != Target(w, h) ==> RolesAt(WithRole(w, h, r), b) == RolesAt(w, b)
  {
    forall b | b != Target(w, h) ensures RolesAt(WithRole(w, h, r), b) == RolesAt(w, b) {}
  }

  lemma AtDrop(w: World, h: HandleId)
    requires Holding(w, h)
    ensures RolesAt(DropHandle(w, h), Target(w, h)) == RolesAt(w, Target(w, h)) - {h} && h in RolesAt(w, Target(w, h))
    ensures forall b :: b != Target(w, h) ==> RolesAt(DropHandle(w, h), b) == RolesAt(w, b)
  {
    forall b | b != Target(w, h) ensures RolesAt(DropHandle(w, h), b) == RolesAt(w, b) {}
  }

  lemma AtNotify(w: World, a: Addr)
    ensures RolesAt(NotifyAll(w, a), a) == Woken(RolesAt(w, a))
    ensures forall b :: b != a ==> RolesAt(NotifyAll(w, a), b) == RolesAt(w, b)
    ensures NotifyAll(w, a).handles.Keys == w.handles.Keys
    ensures forall h :: h in w.handles ==> NotifyAll(w, a).handles[h].target == w.handles[h].target
  {
    forall b | b != a ensures RolesAt(NotifyAll(w, a), b) == RolesAt(w, b) {}
  }

  /** The step stores a null exception in a state that has no outcome. */
  predicate StoresNull(w: World, e: Event)
    requires Enabled(w, e)
  {
    match e
    case SetException(h, p) => p == None && !HasValue(SubOf(w, h))
    case SetExceptionAtExit(h, p, _) => p == None && !HasValue(SubOf(w, h))
    case _ => false
  }

  lemma MakeInv(w: World, h: HandleId, a: Addr)
    requires Inv(w) && Enabled(w, MakePromise(h, a))
    ensures Inv(Next(w, MakePromise(h, a)))
  {
    hide Good;
    hide GoodState;
    var v := WithSub(w, a, NEW_SUB);
    AtAdd(v, h, Promise, a);
    NewIsGood(h);
    assert RolesAt(w, a) == map[] by {
      forall k | k in w.handles ensures w.handles[k].target != Some(a) {}
    }
    assert RolesAt(v, a) == map[];
    assert forall b :: RolesAt(v, b) == RolesAt(w, b);
    assert (map[])[h := Promise] == map[h := Promise];
    Rebuilt(w, AddHandle(v, h, Promise, a), a);
  }

  lemma GetFutureInv(w: World, h: HandleId, f: HandleId)
    requires Inv(w) && Enabled(w, GetFuture(h, f))
    ensures Inv(Next(w, GetFuture(h, f)))
  {
    hide Good;
    var a := Target(w, h);
    if !w.subs[a].attached {
      var v := WithSub(w, a, AddShared(w.subs[a]).(attached := true));
      AtAdd(v, f, Future, a);
      assert forall b :: RolesAt(v, b) == RolesAt(w, b);
      assert h in RolesAt(w, a);
      AttachIsGood(w.subs[a], RolesAt(w, a), h, f);
      Rebuilt(w, AddHandle(v, f, Future, a), a);
    }
  }

  lemma SetValueInv(w: World, h: HandleId)
    requires Inv(w) && Enabled(w, Event.SetValue(h))
    ensures Inv(Next(w, Event.SetValue(h)))
  {
    hide Good;
    var a := Target(w, h);
    if !HasValue(w.subs[a]) {
      var v := SetIt(w, a, SharedSpec.SetValue(w.subs[a]));
      assert forall b :: RolesAt(v, b) == RolesAt(w, b);
      AtNotify(v, a);
      assert h in RolesAt(w, a);
      SetValueIsGood(w.subs[a], RolesAt(w, a), h);
      Rebuilt(w, NotifyAll(v, a), a);
    }
  }

  /** Storing an exception, for a promise and for its destructor. */
  lemma StoreInv(w: World, h: HandleId, p: Exception, r: Role)
    requires Inv(w) && Holding(w, h) && PromiseRole(RoleOf(w, h)) && !HasValue(SubOf(w, h))
    requires r.PromiseNotifying? || r.PromiseBroken?
    ensures Inv(WithRole(SetIt(w, Target(w, h), SharedSpec.SetException(SubOf(w, h), Some(p))), h, r))
  {
    hide Good;
    var a := Target(w, h);
    var v := SetIt(w, a, SharedSpec.SetException(w.subs[a], Some(p)));
    assert forall b :: RolesAt(v, b) == RolesAt(w, b);
    AtRole(v, h, r);
    SetExceptionIsGood(w.subs[a], RolesAt(w, a), h, p, r);
    Rebuilt(w, WithRole(v, h, r), a);
  }

  lemma SetAtExitInv(w: World, h: HandleId, t: Sub, r: HandleId)
    requires Inv(w) && Holding(w, h) && RoleOf(w, h).Promise? && Fresh(w, r) && !HasValue(SubOf(w, h))
    requires var s := SubOf(w, h);
             t == AddShared(SetValueAtThreadExit(s)) || exists p :: t == AddShared(SetExceptionAtThreadExit(s, Some(p)))
    ensures Inv(AddHandle(SetIt(w, Target(w, h), t), r, AtThreadExit, Target(w, h)))
  {
    hide Good;
    var a := Target(w, h);
    var v := SetIt(w, a, t);
    assert forall b :: RolesAt(v, b) == RolesAt(w, b);
    AtAdd(v, r, AtThreadExit, a);
    assert h in RolesAt(w, a);
    SetAtExitIsGood(w.subs[a], RolesAt(w, a), h, t, r);
    Rebuilt(w, AddHandle(v, r, AtThreadExit, a), a);
  }

  lemma NotifyInv(w: World, h: HandleId)
    requires Inv(w) && Enabled(w, Notify(h))
    ensures Inv(Next(w, Notify(h)))
  {
    hide Good;
    var a := Target(w, h);
    var r := match RoleOf(w, h)
             case PromiseNotifying => Promise
             case PromiseBroken => PromiseReleasing
             case _ => ThreadReleasing;
    AtNotify(w, a);
    AtRole(NotifyAll(w, a), h, r);
    assert h in RolesAt(w, a);
    NotifyIsGood(w.subs[a], RolesAt(w, a), h, r);
    Rebuilt(w, Next(w, Notify(h)), a);
  }

  /** A handle changes its role and nothing else. */
  lemma RoleInv(w: World, h: HandleId, r: Role)
    requires Inv(w) && Holding(w, h) && Good(SubOf(w, h), RolesAt(w, Target(w, h))[h := r])
    ensures Inv(WithRole(w, h, r))
  {
    hide Good;
    AtRole(w, h, r);
    Rebuilt(w, WithRole(w, h, r), Target(w, h));
  }

  /** The state of a handle and the handles that share it. */
  lemma GoodAt(w: World, h: HandleId)
    requires Inv(w) && Holding(w, h)
    ensures var roles := RolesAt(w, Target(w, h));
            h in roles && roles[h] == RoleOf(w, h) && Good(SubOf(w, h), roles) && GoodRole(SubOf(w, h), roles, h)
  {
    var roles := RolesAt(w, Target(w, h));
    assert Good(SubOf(w, h), roles) && h in roles;
  }

  lemma DestroyInv(w: World, h: HandleId)
    requires Inv(w) && Enabled(w, DestroyPromise(h))
    ensures Inv(Next(w, DestroyPromise(h)))
  {
    hide Inv;
    hide Good;
    var s := SubOf(w, h);
    var r := if !HasValue(s) && s.owners + 1 > 1 then PromiseBreaking else PromiseReleasing;
    GoodAt(w, h);
    DestroyGood(s, RolesAt(w, Target(w, h)), h, r);
    RoleInv(w, h, r);
  }

  lemma DestroyGood(s: Sub, roles: Roles, h: HandleId, r: Role)
    requires Good(s, roles) && h in roles && roles[h].Promise?
    requires r == if !HasValue(s) && s.owners + 1 > 1 then PromiseBreaking else PromiseReleasing
    ensures Good(s, roles[h := r])
  {
    DestroyRole(s, roles, h, r);
    RoleIsGood(s, roles, h, r);
  }

  /** A promise that goes without storing an outcome is alone or has one. */
  lemma DestroyRole(s: Sub, roles: Roles, h: HandleId, r: Role)
    requires Counted(s, roles) && h in roles
    requires r == if !HasValue(s) && s.owners + 1 > 1 then PromiseBreaking else PromiseReleasing
    ensures GoodRole(s, roles[h := r], h)
  {
    Empties(roles, h);
    Alone(roles, h);
    assert roles[h := r].Keys == roles.Keys;
    assert |roles| >= 1;
  }

  lemma Alone(roles: Roles, h: HandleId)
    requires h in roles
    ensures |roles| == 1 <==> roles.Keys == {h}
  {
    Empties(roles, h);
    if |roles| == 1 {
      forall k | k in roles ensures k == h { assert k != h ==> k in roles - {h}; }
    }
  }

  lemma ThreadExitInv(w: World, h: HandleId)
    requires Inv(w) && Enabled(w, ThreadExit(h))
    ensures Inv(Next(w, ThreadExit(h)))
  {
    hide Good;
    var a := Target(w, h);
    var v := WithSub(w, a, MakeReady(w.subs[a]));
    assert forall b :: RolesAt(v, b) == RolesAt(w, b);
    AtRole(v, h, ThreadNotifying);
    ThreadExitIsGood(w.subs[a], RolesAt(w, a), h);
    assert GoodRole(w.subs[a], RolesAt(w, a), h) by { RoleFact(w.subs[a], RolesAt(w, a), h); }
    Rebuilt(w, WithRole(v, h, ThreadNotifying), a);
  }

  lemma RoleFact(s: Sub, roles: Roles, h: HandleId)
    requires Good(s, roles) && h in roles
    ensures GoodRole(s, roles, h)
  {}

  lemma ReleaseInv(w: World, h: HandleId)
    requires Inv(w) && Holding(w, h)
    requires var r := RoleOf(w, h); r.PromiseReleasing? || r.ThreadReleasing? || FutureRole(r)
    ensures Inv(DropHandle(WithSub(w, Target(w, h), ReleaseShared(SubOf(w, h))), h))
  {
    hide Good;
    var a := Target(w, h);
    var v := WithSub(w, a, ReleaseShared(w.subs[a]));
    assert forall b :: RolesAt(v, b) == RolesAt(w, b);
    AtDrop(v, h);
    ReleaseIsGood(w.subs[a], RolesAt(w, a), h);
    Rebuilt(w, DropHandle(v, h), a);
  }

  lemma StartWaitInv(w: World, h: HandleId, getting: bool)
    requires Inv(w) && Enabled(w, StartWait(h, getting))
    ensures Inv(Next(w, StartWait(h, getting)))
  {
    var s, roles := SubOf(w, h), RolesAt(w, Target(w, h));
    var r := Waiting(RoleOf(w, h).SharedFuture?, getting, false);
    assert h in roles && Good(s, roles);
    RoleFact(s, roles, h);
    RoleIsGood(s, roles, h, r);
    RoleInv(w, h, r);
  }

  lemma WakeInv(w: World, h: HandleId)
    requires Inv(w) && Enabled(w, Wake(h))
    ensures Inv(Next(w, Wake(h)))
  {
    var s, roles := SubOf(w, h), RolesAt(w, Target(w, h));
    assert h in roles && Good(s, roles);
    RoleFact(s, roles, h);
    RoleIsGood(s, roles, h, RoleOf(w, h).(sleeping := false));
    RoleInv(w, h, RoleOf(w, h).(sleeping := false));
  }

  lemma CheckInv(w: World, h: HandleId)
    requires Inv(w) && Enabled(w, Check(h))
    ensures Inv(Next(w, Check(h)))
  {
    hide Inv;
    hide Good;
    var a := Target(w, h);
    var s, roles, role := w.subs[a], RolesAt(w, a), RoleOf(w, h);
    GoodAt(w, h);
    if !s.ready {
      RoleIsGood(s, roles, h, role.(sleeping := true));
      RoleInv(w, h, role.(sleeping := true));
    } else {
      var v := w.(results := w.results + [Result(a, Copied(s))]);
      ResultInv(w, v, a);
      DoneWaiting(v, h);
    }
  }

  /** Having got the outcome, the future is given up or goes back to its place. */
  lemma DoneWaiting(v: World, h: HandleId)
    requires Inv(v) && Holding(v, h) && RoleOf(v, h).Waiting? && !RoleOf(v, h).sleeping
    ensures var a, role := Target(v, h), RoleOf(v, h);
            Inv(if role.getting then DropHandle(WithSub(v, a, ReleaseShared(v.subs[a])), h)
                else WithRole(v, h, if role.shared then SharedFuture else Future))
  {
    hide Inv;
    hide Good;
    var role := RoleOf(v, h);
    var after := if role.shared then SharedFuture else Future;
    GoodAt(v, h);
    if role.getting {
      ReleaseInv(v, h);
    } else {
      AttachedRole(SubOf(v, h), RolesAt(v, Target(v, h))[h := after], h);
      RoleIsGood(SubOf(v, h), RolesAt(v, Target(v, h)), h, after);
      RoleInv(v, h, after);
    }
  }

  lemma ResultInv(w: World, v: World, a: Addr)
    requires Inv(w) && a in w.subs && w.subs[a].ready && v == w.(results := w.results + [Result(a, Copied(w.subs[a]))])
    ensures Inv(v)
  {
    hide Good;
    assert forall b :: RolesAt(v, b) == RolesAt(w, b);
    Rebuilt(w, v, a);
  }

  lemma ShareInv(w: World, h: HandleId, n: HandleId)
    requires Inv(w) && Enabled(w, Share(h, n))
    ensures Inv(Next(w, Share(h, n)))
  {
    hide Good;
    var a := Target(w, h);
    var v := w.(handles := w.handles[h := Handle(Future, None)]);
    AtAdd(v, n, SharedFuture, a);
    assert RolesAt(v, a) == RolesAt(w, a) - {h} && h in RolesAt(w, a);
    forall b | b != a ensures RolesAt(v, b) == RolesAt(w, b) {}
    ShareIsGood(w.subs[a], RolesAt(w, a), h, n);
    Rebuilt(w, Next(w, Share(h, n)), a);
  }

  lemma CopyInv(w: World, h: HandleId, n: HandleId)
    requires Inv(w) && Enabled(w, CopyShared(h, n))
    ensures Inv(Next(w, CopyShared(h, n)))
  {
    hide Good;
    var a := Target(w, h);
    var v := WithSub(w, a, AddShared(w.subs[a]));
    assert forall b :: RolesAt(v, b) == RolesAt(w, b);
    AtAdd(v, n, SharedFuture, a);
    assert h in RolesAt(w, a) && FutureRole(RolesAt(w, a)[h]);
    JoinIsGood(w.subs[a], RolesAt(w, a), n);
    Rebuilt(w, Next(w, CopyShared(h, n)), a);
  }

  lemma AtGiven(w: World, u: World, h: HandleId, a: Addr)
    requires h in w.handles && w.handles[h].target == Some(a) && u.handles == w.handles[h := Handle(SharedFuture, None)]
    ensures RolesAt(u, a) == RolesAt(w, a) - {h} && h in RolesAt(w, a)
    ensures forall b :: b != a ==> RolesAt(u, b) == RolesAt(w, b)
  {
    forall b | b != a ensures RolesAt(u, b) == RolesAt(w, b) {}
  }

  lemma AtTaken(w: World, u: World, h: HandleId, a: Addr)
    requires h in w.handles && w.handles[h].target == None && u.handles == w.handles[h := Handle(SharedFuture, Some(a))]
    ensures RolesAt(u, a) == RolesAt(w, a)[h := SharedFuture] && h !in RolesAt(w, a)
    ensures forall b :: b != a ==> RolesAt(u, b) == RolesAt(w, b)
  {
    forall b | b != a ensures RolesAt(u, b) == RolesAt(w, b) {}
  }

  /** A shared future gives up its state. */
  lemma LeaveInv(w: World, h: HandleId)
    requires Inv(w) && Holding(w, h) && RoleOf(w, h).SharedFuture?
    ensures var v := WithSub(w, Target(w, h), ReleaseShared(SubOf(w, h)));
            Inv(v.(handles := v.handles[h := Handle(SharedFuture, None)]))
  {
    hide Good;
    var a := Target(w, h);
    var v := WithSub(w, a, ReleaseShared(w.subs[a]));
    var u := v.(handles := v.handles[h := Handle(SharedFuture, None)]);
    AtGiven(w, u, h, a);
    assert FutureRole(RolesAt(w, a)[h]);
    ReleaseIsGood(w.subs[a], RolesAt(w, a), h);
    Rebuilt(w, u, a);
  }

  /** A shared future without a state takes that of another. */
  lemma EnterInv(w: World, h: HandleId, rhs: HandleId)
    requires Inv(w) && h in w.handles && w.handles[h] == Handle(SharedFuture, None)
    requires Holding(w, rhs) && RoleOf(w, rhs).SharedFuture?
    ensures var v := WithSub(w, Target(w, rhs), AddShared(SubOf(w, rhs)));
            Inv(v.(handles := v.handles[h := Handle(SharedFuture, w.handles[rhs].target)]))
  {
    hide Good;
    var a := Target(w, rhs);
    var v := WithSub(w, a, AddShared(w.subs[a]));
    var u := v.(handles := v.handles[h := Handle(SharedFuture, Some(a))]);
    AtTaken(w, u, h, a);
    assert rhs in RolesAt(w, a) && FutureRole(RolesAt(w, a)[rhs]);
    JoinIsGood(w.subs[a], RolesAt(w, a), h);
    Rebuilt(w, u, a);
  }

  lemma AssignInv(w: World, h: HandleId, rhs: HandleId)
    requires Inv(w) && Enabled(w, AssignShared(h, rhs))
    ensures Inv(Next(w, AssignShared(h, rhs)))
  {
    hide Good;
    hide Inv;
    var left, right := w.handles[h].target, w.handles[rhs].target;
    var v := Next(w, AssignShared(h, rhs));
    if left == right {
      if left.Some? { OwnersFact(w, h); }
      AssignSame(w, h, rhs);
    } else if left == None {
      EnterInv(w, h, rhs);
    } else if right == None {
      LeaveInv(w, h);
    } else {
      LeaveInv(w, h);
      var u := WithSub(w, left.value, ReleaseShared(w.subs[left.value]));
      var x := u.(handles := u.handles[h := Handle(SharedFuture, None)]);
      EnterInv(x, h, rhs);
      var y := WithSub(x, right.value, AddShared(x.subs[right.value]));
      assert v == y.(handles := y.handles[h := Handle(SharedFuture, right)]);
    }
  }

  lemma OwnersFact(w: World, h: HandleId)
    requires Inv(w) && Holding(w, h)
    ensures SubOf(w, h).owners >= 0 && SubOf(w, h).freed == 0
  {
    var roles := RolesAt(w, Target(w, h));
    assert h in roles && Good(SubOf(w, h), roles);
    MapSize(roles, h, roles[h]);
    assert |roles - {h}| >= 0;
  }

  /** Assignment from the same state, in particular to itself, changes nothing. */
  lemma AssignSame(w: World, h: HandleId, rhs: HandleId)
    requires Enabled(w, AssignShared(h, rhs)) && w.handles[h].target == w.handles[rhs].target
    requires w.handles[h].target.Some? ==> SubOf(w, h).owners >= 0
    ensures Next(w, AssignShared(h, rhs)) == w
  {
    var v := Next(w, AssignShared(h, rhs));
    if w.handles[h].target.Some? {
      assert ReleaseShared(AddShared(SubOf(w, h))) == SubOf(w, h);
      assert v.subs == w.subs;
    }
    assert v.handles == w.handles;
  }

  /** Every step, of whatever thread, keeps the invariant unless it stores a null
      exception. */
  lemma NextKeeps(w: World, e: Event)
    requires Inv(w) && Enabled(w, e) && !StoresNull(w, e)
    ensures Inv(Next(w, e))
  {
    hide Inv;
    match e
    case MakePromise(h, a) => MakeInv(w, h, a);
    case GetFuture(h, f) => GetFutureInv(w, h, f);
    case SetValue(h) => SetValueInv(w, h);
    case SetException(h, p) => if !HasValue(SubOf(w, h)) { StoreInv(w, h, p.value, PromiseNotifying); }
    case SetValueAtExit(h, r) =>
      if !HasValue(SubOf(w, h)) { SetAtExitInv(w, h, AddShared(SetValueAtThreadExit(SubOf(w, h))), r); }
    case SetExceptionAtExit(h, p, r) =>
      if !HasValue(SubOf(w, h)) {
        SetAtExitInv(w, h, AddShared(SetExceptionAtThreadExit(SubOf(w, h), Some(p.value))), r);
      }
    case Notify(h) => NotifyInv(w, h);
    case DestroyPromise(h) => DestroyInv(w, h);
    case Break(h) => if !HasValue(SubOf(w, h)) { StoreInv(w, h, BROKEN_PROMISE, PromiseBroken); }
    case ThreadExit(h) => ThreadExitInv(w, h);
    case Release(h) => ReleaseInv(w, h);
    case StartWait(h, getting) => StartWaitInv(w, h, getting);
    case Check(h) => CheckInv(w, h);
    case Wake(h) => WakeInv(w, h);
    case Share(h, s) => ShareInv(w, h, s);
    case CopyShared(h, s) => CopyInv(w, h, s);
    case AssignShared(h, rhs) => AssignInv(w, h, rhs);
  }

  /** A state counts as set but has no outcome, or was set twice. */
  ghost predicate Broken(w: World) {
    !Unique(w.sets) || exists a {:trigger w.subs[a]} :: a in w.sets && a in w.subs && !HasValue(w.subs[a])
  }

  lemma BrokenFact(w: World)
    requires Broken(w)
    ensures !Inv(w)
  {}

  lemma NullBreaks(w: World, e: Event)
    requires Inv(w) && Enabled(w, e) && StoresNull(w, e)
    ensures Broken(Next(w, e))
  {
    var h := e.h;
    var v := Next(w, e);
    assert v.sets[|w.sets|] == Target(w, h) && !HasValue(v.subs[Target(w, h)]);
  }

  /** Every step, of whatever thread, keeps the invariant iff it does not store a null
      exception. */
  lemma NextInv(w: World, e: Event)
    requires Inv(w) && Enabled(w, e)
    ensures Inv(Next(w, e)) <==> !StoresNull(w, e)
  {
    hide Inv;
    if StoresNull(w, e) {
      NullBreaks(w, e);
      BrokenFact(Next(w, e));
    } else {
      NextKeeps(w, e);
    }
  }

  /** A state gets an outcome only where that counts as an attempt to set it. */
  lemma OutcomeIsSet(w: World, e: Event, a: Addr)
    requires Enabled(w, e) && a in w.subs && !HasValue(w.subs[a])
    ensures a in Next(w, e).subs && (HasValue(Next(w, e).subs[a]) ==> Next(w, e).sets == w.sets + [a])
  {
    match e
    case GetFuture(_, _) =>
    case SetValue(_) =>
    case SetException(_, _) =>
    case AssignShared(_, _) =>
    case _ =>
  }

  /** No later step makes up for a broken state. */
  lemma StaysBroken(w: World, e: Event)
    requires Broken(w) && Enabled(w, e)
    ensures Broken(Next(w, e))
  {
    hide Next;
    SetsGrow(w, e);
    var v := Next(w, e);
    if Unique(v.sets) {
      assert w.sets == v.sets[..|w.sets|];
      var a :| a in w.sets && a in w.subs && !HasValue(w.subs[a]);
      OutcomeIsSet(w, e, a);
      SetAgain(w.sets, a);
      assert a in v.sets[..|w.sets|];
    }
  }

  lemma SetAgain(sets: seq<Addr>, a: Addr)
    requires a in sets
    ensures !Unique(sets + [a])
  {
    var i :| 0 <= i < |sets| && sets[i] == a;
    assert (sets + [a])[i] == (sets + [a])[|sets|];
  }

  lemma SetsGrow(w: World, e: Event)
    requires Enabled(w, e)
    ensures w.sets <= Next(w, e).sets
  {}

  // ---------- runs ----------

  ghost predicate IsRun(w: World, events: seq<Event>)
    decreases events
  {
    events == [] || (Enabled(w, events[0]) && IsRun(Next(w, events[0]), events[1..]))
  }

  ghost predicate NeverNull(w: World, events: seq<Event>)
    requires IsRun(w, events)
    decreases events
  {
    events == [] || (!StoresNull(w, events[0]) && NeverNull(Next(w, events[0]), events[1..]))
  }

  ghost function Run(w: World, events: seq<Event>): World
    requires IsRun(w, events)
    decreases events
  {
    if events == [] then w else Run(Next(w, events[0]), events[1..])
  }

  lemma {:induction false} RunStaysBroken(w: World, events: seq<Event>)
    requires Broken(w) && IsRun(w, events)
    ensures Broken(Run(w, events))
    decreases events
  {
    if events != [] {
      StaysBroken(w, events[0]);
      RunStaysBroken(Next(w, events[0]), events[1..]);
    }
  }

  /** The invariant holds after a run iff no step of it stored a null exception. */
  lemma {:induction false} RunInv(w: World, events: seq<Event>)
    requires Inv(w) && IsRun(w, events)
    ensures Inv(Run(w, events)) <==> NeverNull(w, events)
    decreases events
  {
    hide Inv;
    hide Broken;
    if events != [] {
      var v := Next(w, events[0]);
      if StoresNull(w, events[0]) {
        NullBreaks(w, events[0]);
        RunStaysBroken(v, events[1..]);
        BrokenFact(Run(v, events[1..]));
      } else {
        NextKeeps(w, events[0]);
        RunInv(v, events[1..]);
      }
    }
  }

  /** A step changes no outcome, clears no ready flag and forgets no result. */
  lemma NextLasting(w: World, e: Event, a: Addr)
    requires Enabled(w, e) && a in w.subs
    ensures a in Next(w, e).subs && Lasting(w.subs[a], Next(w, e).subs[a])
    ensures w.results <= Next(w, e).results && w.sets <= Next(w, e).sets
  {
    match e
    case GetFuture(_, _) =>
    case SetValue(_) =>
    case SetException(_, _) =>
    case AssignShared(_, _) =>
    case _ =>
  }

  lemma {:induction false} RunLasting(w: World, events: seq<Event>, a: Addr)
    requires IsRun(w, events) && a in w.subs
    ensures a in Run(w, events).subs && Lasting(w.subs[a], Run(w, events).subs[a])
    decreases events
  {
    if events != [] {
      NextLasting(w, events[0], a);
      RunLasting(Next(w, events[0]), events[1..], a);
    }
  }

  /** Over every run, all that was obtained from a state is the same outcome, and it
      is the outcome the state has in the end. */
  lemma ResultsAgree(events: seq<Event>, i: nat, j: nat)
    requires IsRun(EMPTY_WORLD, events) && NeverNull(EMPTY_WORLD, events)
    requires var w := Run(EMPTY_WORLD, events);
             i < |w.results| && j < |w.results| && w.results[i].addr == w.results[j].addr
    ensures var w := Run(EMPTY_WORLD, events);
            w.results[i].outcome == w.results[j].outcome && ResultStands(w, w.results[i])
  {
    RunInv(EMPTY_WORLD, events);
    var w := Run(EMPTY_WORLD, events);
    assert ResultStands(w, w.results[i]) && ResultStands(w, w.results[j]);
  }

  // ---------- one future, and no readiness before the thread exits ----------

  predicate Exclusive(r: Role) {
    r.Future? || (r.Waiting? && !r.shared)
  }

  /** The handle is a future that is not shared, of this state. */
  predicate Owns(w: World, h: HandleId, a: Addr) {
    h in w.handles && w.handles[h].target == Some(a) && Exclusive(w.handles[h].role)
  }

  /** A state has at most one future that is not shared, and is marked if it has one. */
  ghost predicate OneFuture(w: World) {
    && (forall h, a :: Owns(w, h, a) ==> a in w.subs && w.subs[a].attached)
    && (forall h, k, a :: Owns(w, h, a) && Owns(w, k, a) ==> h == k)
  }

  /** The thread is to make this state ready when it exits. */
  predicate ToBeReady(w: World, h: HandleId, a: Addr) {
    h in w.handles && w.handles[h] == Handle(AtThreadExit, Some(a))
  }

  /** Such a state has an outcome and is not ready, and one thread only is to make it
      ready. */
  ghost predicate NotReadyYet(w: World) {
    && (forall h, a :: ToBeReady(w, h, a) ==> a in w.subs && HasValue(w.subs[a]) && !w.subs[a].ready)
    && (forall h, k, a :: ToBeReady(w, h, a) && ToBeReady(w, k, a) ==> h == k)
  }

  lemma OneFutureStays(w: World, e: Event)
    requires OneFuture(w) && Enabled(w, e)
    ensures OneFuture(Next(w, e))
  {
    forall h, a | Owns(Next(w, e), h, a)
      ensures a in Next(w, e).subs && Next(w, e).subs[a].attached
      ensures Owns(w, h, a) || (e.GetFuture? && h == e.f && a == Target(w, e.h) && !w.subs[a].attached)
    {
      OwnedBefore(w, e, h, a);
    }
  }

  lemma OwnedBefore(w: World, e: Event, h: HandleId, a: Addr)
    requires OneFuture(w) && Enabled(w, e) && Owns(Next(w, e), h, a)
    ensures a in Next(w, e).subs && Next(w, e).subs[a].attached
    ensures Owns(w, h, a) || (e.GetFuture? && h == e.f && a == Target(w, e.h) && !w.subs[a].attached)
  {
    hide OneFuture;
    if !(e.GetFuture? && h == e.f) {
      OwnedOnce(w, e, h, a);
      StillAttached(w, e, h, a);
    }
  }

  lemma OwnedOnce(w: World, e: Event, h: HandleId, a: Addr)
    requires Enabled(w, e) && Owns(Next(w, e), h, a) && !(e.GetFuture? && h == e.f)
    ensures Owns(w, h, a)
  {}

  lemma StillAttached(w: World, e: Event, h: HandleId, a: Addr)
    requires OneFuture(w) && Enabled(w, e) && Owns(w, h, a)
    ensures a in Next(w, e).subs && Next(w, e).subs[a].attached
  {
    assert a in w.subs && w.subs[a].attached;
    hide OneFuture;
  }

  /** The step hands the state to the exit of the thread. */
  predicate HandsOver(e: Event, h: HandleId) {
    (e.SetValueAtExit? && e.r == h) || (e.SetExceptionAtExit? && e.r == h)
  }

  lemma NotReadyYetStays(w: World, e: Event)
    requires Inv(w) && NotReadyYet(w) && Enabled(w, e) && !StoresNull(w, e)
    ensures NotReadyYet(Next(w, e))
  {
    hide Next;
    hide StoresNull;
    hide Inv;
    forall h, a | ToBeReady(Next(w, e), h, a)
      ensures a in Next(w, e).subs && HasValue(Next(w, e).subs[a]) && !Next(w, e).subs[a].ready
      ensures ToBeReady(w, h, a) || (a in w.subs && !HasValue(w.subs[a]) && HandsOver(e, h))
    {
      ToBeReadyOnce(w, e, h, a);
      if ToBeReady(w, h, a) {
        StillToBeReady(w, e, h, a);
      } else {
        HandedOver(w, e, h, a);
      }
    }
  }

  lemma ToBeReadyOnce(w: World, e: Event, h: HandleId, a: Addr)
    requires Enabled(w, e) && ToBeReady(Next(w, e), h, a)
    ensures ToBeReady(w, h, a) || (a in w.subs && !HasValue(w.subs[a]) && HandsOver(e, h))
  {}

  lemma StillToBeReady(w: World, e: Event, h: HandleId, a: Addr)
    requires NotReadyYet(w) && Enabled(w, e) && ToBeReady(w, h, a) && ToBeReady(Next(w, e), h, a)
    ensures a in Next(w, e).subs && HasValue(Next(w, e).subs[a]) && !Next(w, e).subs[a].ready
  {
    assert a in w.subs && HasValue(w.subs[a]) && !w.subs[a].ready;
    if e.ThreadExit? { ExitMakesReady(w, e); }
  }

  lemma ExitMakesReady(w: World, e: Event)
    requires Enabled(w, e) && e.ThreadExit?
    ensures ToBeReady(w, e.h, Target(w, e.h))
  {}

  lemma HandedOver(w: World, e: Event, h: HandleId, a: Addr)
    requires Inv(w) && Enabled(w, e) && !StoresNull(w, e) && HandsOver(e, h)
    requires a in w.subs && !HasValue(w.subs[a]) && ToBeReady(Next(w, e), h, a)
    ensures a in Next(w, e).subs && HasValue(Next(w, e).subs[a]) && !Next(w, e).subs[a].ready
  {
    hide Good;
    ReadyFact(w.subs[a], RolesAt(w, a));
  }

  /** Over every run a state gets at most one future of its own; and what was set for
      the exit of a thread does not become ready while that is still to come. */
  lemma {:induction false} RunSingle(w: World, events: seq<Event>)
    requires Inv(w) && OneFuture(w) && NotReadyYet(w) && IsRun(w, events) && NeverNull(w, events)
    ensures OneFuture(Run(w, events)) && NotReadyYet(Run(w, events))
    decreases events
  {
    hide Inv;
    hide OneFuture;
    hide NotReadyYet;
    if events != [] {
      NextInv(w, events[0]);
      OneFutureStays(w, events[0]);
      NotReadyYetStays(w, events[0]);
      RunSingle(Next(w, events[0]), events[1..]);
    }
  }

  lemma SingleFromStart(events: seq<Event>)
    requires IsRun(EMPTY_WORLD, events) && NeverNull(EMPTY_WORLD, events)
    ensures OneFuture(Run(EMPTY_WORLD, events)) && NotReadyYet(Run(EMPTY_WORLD, events))
  {
    RunSingle(EMPTY_WORLD, events);
  }

  /** A step makes a state ready only by setting it at once, or at the exit of the
      thread that set it before. */
  lemma ReadyOnlyBy(w: World, e: Event, a: Addr)
    requires Enabled(w, e) && a in w.subs && !w.subs[a].ready && Next(w, e).subs[a].ready
    ensures e.SetValue? || e.SetException? || e.Break? || e.ThreadExit?
    ensures Holding(w, e.h) && Target(w, e.h) == a
  {}

  /** The step stores this outcome: a value, the exception that it is given, or the
      exception of a promise that was broken. */
  predicate Stores(e: Event, o: Outcome) {
    match e
    case SetValue(_) => o == Value
    case SetValueAtExit(_, _) => o == Value
    case SetException(_, p) => p.Some? && o == Threw(p.value)
    case SetExceptionAtExit(_, p, _) => p.Some? && o == Threw(p.value)
    case Break(_) => o == Threw(BROKEN_PROMISE)
    case _ => false
  }

  /** In the run an attempt to store this outcome in the state succeeds. */
  ghost predicate WasSet(w: World, events: seq<Event>, a: Addr, o: Outcome)
    requires IsRun(w, events)
    decreases events
  {
    events != [] &&
    ((Stores(events[0], o) && Next(w, events[0]).sets == w.sets + [a]) ||
     WasSet(Next(w, events[0]), events[1..], a, o))
  }

  lemma SetStores(w: World, e: Event, a: Addr, o: Outcome)
    requires Enabled(w, e) && Stores(e, o) && Next(w, e).sets == w.sets + [a] && Inv(w)
    ensures a in Next(w, e).subs && HasValue(Next(w, e).subs[a]) && Copied(Next(w, e).subs[a]) == o
  {
    hide Good;
    assert Next(w, e).sets[|w.sets|] == a;
    if e.SetValue? || e.SetValueAtExit? { assert !HasValue(w.subs[a]); }
  }

  /** What was set is there in the end. */
  lemma {:induction false} SetStays(w: World, events: seq<Event>, a: Addr, o: Outcome)
    requires Inv(w) && IsRun(w, events) && NeverNull(w, events) && WasSet(w, events, a, o)
    ensures var v := Run(w, events); a in v.subs && HasValue(v.subs[a]) && Copied(v.subs[a]) == o
    decreases events
  {
    hide Inv;
    hide Next;
    var e := events[0];
    NextInv(w, e);
    if Stores(e, o) && Next(w, e).sets == w.sets + [a] {
      SetStores(w, e, a, o);
      RunLasting(Next(w, e), events[1..], a);
    } else {
      SetStays(Next(w, e), events[1..], a, o);
    }
  }

  /** Over every run, whatever is obtained from a state is what the successful attempt
      to set it stored. */
  lemma ResultIsWhatWasSet(events: seq<Event>, i: nat, o: Outcome)
    requires IsRun(EMPTY_WORLD, events) && NeverNull(EMPTY_WORLD, events)
    requires i < |Run(EMPTY_WORLD, events).results|
    requires WasSet(EMPTY_WORLD, events, Run(EMPTY_WORLD, events).results[i].addr, o)
    ensures Run(EMPTY_WORLD, events).results[i].outcome == o
  {
    RunInv(EMPTY_WORLD, events);
    var w := Run(EMPTY_WORLD, events);
    assert ResultStands(w, w.results[i]);
    SetStays(EMPTY_WORLD, events, w.results[i].addr, o);
  }

  /** ... and there is such an attempt. */
  lemma ResultWasSet(events: seq<Event>, i: nat)
    requires IsRun(EMPTY_WORLD, events) && NeverNull(EMPTY_WORLD, events)
    requires i < |Run(EMPTY_WORLD, events).results|
    ensures var r := Run(EMPTY_WORLD, events).results[i]; WasSet(EMPTY_WORLD, events, r.addr, r.outcome)
  {
    RunInv(EMPTY_WORLD, events);
    var w := Run(EMPTY_WORLD, events);
    assert ResultStands(w, w.results[i]);
    var a := w.results[i].addr;
    assert Good(w.subs[a], RolesAt(w, a));
    assert a in w.sets;
    SomethingSet(EMPTY_WORLD, events, a);
    var o :| WasSet(EMPTY_WORLD, events, a, o);
    SetStays(EMPTY_WORLD, events, a, o);
  }

  lemma {:induction false} SomethingSet(w: World, events: seq<Event>, a: Addr)
    requires IsRun(w, events) && NeverNull(w, events) && a !in w.sets && a in Run(w, events).sets
    ensures exists o :: WasSet(w, events, a, o)
    decreases events
  {
    hide Next;
    hide Enabled;
    if events != [] {
      var e := events[0];
      if a in Next(w, e).sets {
        var o := GrowthStores(w, e, a);
        assert WasSet(w, events, a, o);
      } else {
        SomethingSet(Next(w, e), events[1..], a);
        var o :| WasSet(Next(w, e), events[1..], a, o);
        assert WasSet(w, events, a, o);
      }
    }
  }

  lemma GrowthStores(w: World, e: Event, a: Addr) returns (o: Outcome)
    requires Enabled(w, e) && !StoresNull(w, e) && a !in w.sets && a in Next(w, e).sets
    ensures Stores(e, o) && Next(w, e).sets == w.sets + [a]
  {
    o := match e
         case SetException(_, Some(p)) => Threw(p)
         case SetExceptionAtExit(_, Some(p), _) => Threw(p)
         case Break(_) => Threw(BROKEN_PROMISE)
         case _ => Value;
  }

  /** Over every run at most one attempt to set a state succeeds. */
  lemma SetOnce(events: seq<Event>, a: Addr)
    requires IsRun(EMPTY_WORLD, events) && NeverNull(EMPTY_WORLD, events)
    ensures multiset(Run(EMPTY_WORLD, events).sets)[a] <= 1
  {
    RunInv(EMPTY_WORLD, events);
    UniqueOnce(Run(EMPTY_WORLD, events).sets, a);
  }

  /** Over every run the number of references is the number of handles; a state is
      freed once, when the last handle goes, and no handle has a freed state. */
  lemma Ownership(events: seq<Event>, a: Addr)
    requires IsRun(EMPTY_WORLD, events) && NeverNull(EMPTY_WORLD, events) && a in Run(EMPTY_WORLD, events).subs
    ensures var w := Run(EMPTY_WORLD, events);
            && w.subs[a].owners + 1 == |Holders(w, a)|
            && w.subs[a].freed <= 1
            && (w.subs[a].freed == 0 <==> exists h :: h in w.handles && w.handles[h].target == Some(a))
  {
    RunInv(EMPTY_WORLD, events);
    var w := Run(EMPTY_WORLD, events);
    var roles := RolesAt(w, a);
    assert Good(w.subs[a], roles);
    assert roles.Keys == Holders(w, a) && |roles| == |roles.Keys|;
    if roles != map[] {
      var h :| h in roles;
      assert h in w.handles && w.handles[h].target == Some(a);
    } else {
      forall h | h in w.handles ensures w.handles[h].target != Some(a) { assert h !in roles; }
    }
  }

  /** Over every run, when the promise of a state is gone and somebody can still wait
      for the state, it has an outcome, and is ready or will be when a thread exits. */
  lemma NeverForgotten(events: seq<Event>, a: Addr, f: HandleId)
    requires IsRun(EMPTY_WORLD, events) && NeverNull(EMPTY_WORLD, events)
    requires var w := Run(EMPTY_WORLD, events);
             && f in w.handles && w.handles[f].target == Some(a) && FutureRole(w.handles[f].role)
             && forall h :: h in w.handles && w.handles[h].target == Some(a) ==> !PromiseRole(w.handles[h].role)
    ensures var w := Run(EMPTY_WORLD, events);
            && a in w.subs && HasValue(w.subs[a])
            && (w.subs[a].ready || exists t :: t in w.handles && w.handles[t] == Handle(AtThreadExit, Some(a)))
  {
    RunInv(EMPTY_WORLD, events);
    var w := Run(EMPTY_WORLD, events);
    var roles := RolesAt(w, a);
    assert Good(w.subs[a], roles);
    assert f in roles && FutureRole(roles[f]);
    forall h | h in roles ensures !PromiseRole(roles[h]) {
      assert w.handles[h].role == roles[h];
    }
    if AwaitsExit(roles) {
      var t :| t in roles && roles[t].AtThreadExit?;
      assert w.handles[t] == Handle(AtThreadExit, Some(a));
    }
  }

  /** Over every run, whoever sleeps although the state is ready is yet to be woken. */
  lemma NoLostWakeup(events: seq<Event>, h: HandleId)
    requires IsRun(EMPTY_WORLD, events) && NeverNull(EMPTY_WORLD, events)
    requires var w := Run(EMPTY_WORLD, events);
             Holding(w, h) && RoleOf(w, h).Waiting? && RoleOf(w, h).sleeping && SubOf(w, h).ready
    ensures var w := Run(EMPTY_WORLD, events);
            exists n :: n in w.handles && w.handles[n].target == w.handles[h].target && Enabled(w, Notify(n))
  {
    RunInv(EMPTY_WORLD, events);
    SleepersAwait(Run(EMPTY_WORLD, events), h);
  }

  lemma SleepersAwait(w: World, h: HandleId)
    requires Inv(w) && Holding(w, h) && RoleOf(w, h).Waiting? && RoleOf(w, h).sleeping && SubOf(w, h).ready
    ensures exists n :: n in w.handles && w.handles[n].target == w.handles[h].target && Enabled(w, Notify(n))
  {
    hide Inv;
    hide Good;
    GoodAt(w, h);
    var n := Notifier(SubOf(w, h), RolesAt(w, Target(w, h)), h);
    assert w.handles[n].target == w.handles[h].target && Enabled(w, Notify(n));
  }

  lemma Notifier(s: Sub, roles: Roles, h: HandleId) returns (n: HandleId)
    requires h in roles && GoodRole(s, roles, h) && roles[h].Waiting? && roles[h].sleeping && s.ready
    ensures n in roles && NotifyPending(roles[n])
  {
    n :| n in roles && NotifyPending(roles[n]);
  }

  /** The exception that the destructor of a promise stores is never refused. */
  lemma BreakSucceeds(w: World, h: HandleId)
    requires Inv(w) && Enabled(w, Break(h))
    ensures !HasValue(SubOf(w, h)) && SubOf(Next(w, Break(h)), h).ready
  {
    var roles := RolesAt(w, Target(w, h));
    assert Good(SubOf(w, h), roles) && h in roles;
    RoleFact(SubOf(w, h), roles, h);
  }

  // ---------- null exceptions ----------

  const ONE_PROMISE := World(map[0 := NEW_SUB], map[0 := Handle(Promise, Some(0))], [], [])

  lemma OnePromiseInv()
    ensures Inv(ONE_PROMISE)
  {
    NewIsGood(0);
    assert RolesAt(ONE_PROMISE, 0) == map[0 := Promise];
  }

  /** A null exception makes a state ready without an outcome, so that a second
      attempt to set it succeeds as well. */
  lemma NullException()
    ensures var w := ONE_PROMISE;
            var v := Next(w, SetException(0, None));
            var u := Next(Next(v, Notify(0)), Event.SetValue(0));
            && Inv(w) && Enabled(w, SetException(0, None)) && Enabled(v, Notify(0))
            && v.subs[0].ready && !HasValue(v.subs[0])
            && u.sets == [0, 0]
  {
    hide Inv;
    OnePromiseInv();
  }

  /** So does one that is stored for the exit of the thread. */
  lemma NullExceptionAtExit()
    ensures var w := ONE_PROMISE;
            var v := Next(w, SetExceptionAtExit(0, None, 1));
            var u := Next(v, Event.SetValue(0));
            && Inv(w) && Enabled(w, SetExceptionAtExit(0, None, 1)) && Enabled(v, Event.SetValue(0))
            && u.sets == [0, 0]
  {
    hide Inv;
    OnePromiseInv();
  }
}
