/** The object that a promise and its futures share, and the assignment of shared
    futures. */
module SharedStates {
  import opened Options
  import S = SharedSpec

  const CONSTRUCTED: bv8 := 1
  const FUTURE_ATTACHED: bv8 := 2
  const READY: bv8 := 4

  lemma Flags(state: bv8)
    ensures var s := state | CONSTRUCTED;
            s & CONSTRUCTED != 0 && s & FUTURE_ATTACHED == state & FUTURE_ATTACHED && s & READY == state & READY
    ensures var s := state | FUTURE_ATTACHED;
            s & FUTURE_ATTACHED != 0 && s & CONSTRUCTED == state & CONSTRUCTED && s & READY == state & READY
    ensures var s := state | READY;
            s & READY != 0 && s & CONSTRUCTED == state & CONSTRUCTED && s & FUTURE_ATTACHED == state & FUTURE_ATTACHED
  {}

  class AssocSubState {
    var exception: Option<S.Exception>
    var state: bv8
    var sharedOwners: int
    ghost var freed: nat

    ghost function View(): S.Sub
      reads this
    {
      S.Sub(state & CONSTRUCTED != 0, exception, state & FUTURE_ATTACHED != 0, state & READY != 0, sharedOwners,
            freed)
    }

    constructor ()
      ensures View() == S.NEW_SUB
    {
      exception := None;
      state := 0;
      sharedOwners := 0;
      freed := 0;
    }

    predicate HasValue()
      reads this
    {
      state & CONSTRUCTED != 0 || exception.Some?
    }

    method AddShared()
      modifies this
      ensures View() == S.AddShared(old(View()))
      ensures sharedOwners == old(sharedOwners) + 1 && state == old(state) && exception == old(exception)
    {
      sharedOwners := sharedOwners + 1;
    }

    method ReleaseShared() returns (last: bool)
      modifies this
      ensures View() == S.ReleaseShared(old(View()))
      ensures last <==> old(sharedOwners) == 0
      ensures sharedOwners == old(sharedOwners) - 1 && freed == old(freed) + if last then 1 else 0
      ensures state == old(state) && exception == old(exception)
    {
      sharedOwners := sharedOwners - 1;
      last := sharedOwners == -1;
      if last { freed := freed + 1; }
    }

    method SetFutureAttached()
      modifies this
      ensures View() == old(View()).(attached := true)
    {
      Flags(state);
      state := state | FUTURE_ATTACHED;
    }

    method SetValue() returns (error: Option<S.FutureError>)
      modifies this
      ensures error == if S.HasValue(old(View())) then Some(S.PromiseAlreadySatisfied) else None
      ensures View() == if error.Some? then old(View()) else S.SetValue(old(View()))
      ensures error.Some? <==> old(state & CONSTRUCTED != 0 || exception.Some?)
      ensures error == None ==> state == old(state) | CONSTRUCTED | READY && exception == old(exception)
    {
      if HasValue() {
        return Some(S.PromiseAlreadySatisfied);
      }
      Flags(state);
      Flags(state | CONSTRUCTED);
      assert state | (CONSTRUCTED | READY) == (state | CONSTRUCTED) | READY;
      state := state | (CONSTRUCTED | READY);
      return None;
    }

    /** The caller registers the state with the thread, which takes a reference. */
    method SetValueAtThreadExit() returns (error: Option<S.FutureError>)
      modifies this
      ensures error == if S.HasValue(old(View())) then Some(S.PromiseAlreadySatisfied) else None
      ensures View() == if error.Some? then old(View())
                        else S.AddShared(S.SetValueAtThreadExit(old(View())))
      ensures error.Some? <==> old(state & CONSTRUCTED != 0 || exception.Some?)
      ensures error == None ==>
                && state == old(state) | CONSTRUCTED && exception == old(exception)
                && sharedOwners == old(sharedOwners) + 1
    {
      if HasValue() {
        return Some(S.PromiseAlreadySatisfied);
      }
      Flags(state);
      state := state | CONSTRUCTED;
      AddShared();
      return None;
    }

    method SetException(p: Option<S.Exception>) returns (error: Option<S.FutureError>)
      modifies this
      ensures error == if S.HasValue(old(View())) then Some(S.PromiseAlreadySatisfied) else None
      ensures View() == if error.Some? then old(View()) else S.SetException(old(View()), p)
      ensures error.Some? <==> old(state & CONSTRUCTED != 0 || exception.Some?)
      ensures error == None ==> exception == p && state == old(state) | READY && sharedOwners == old(sharedOwners)
    {
      if HasValue() {
        return Some(S.PromiseAlreadySatisfied);
      }
      Flags(state);
      exception := p;
      state := state | READY;
      return None;
    }

    method SetExceptionAtThreadExit(p: Option<S.Exception>) returns (error: Option<S.FutureError>)
      modifies this
      ensures error == if S.HasValue(old(View())) then Some(S.PromiseAlreadySatisfied) else None
      ensures View() == if error.Some? then old(View())
                        else S.AddShared(S.SetExceptionAtThreadExit(old(View()), p))
      ensures error.Some? <==> old(state & CONSTRUCTED != 0 || exception.Some?)
      ensures error == None ==>
                exception == p && state == old(state) && sharedOwners == old(sharedOwners) + 1
    {
      if HasValue() {
        return Some(S.PromiseAlreadySatisfied);
      }
      exception := p;
      AddShared();
      return None;
    }

    method MakeReady()
      modifies this
      ensures View() == S.MakeReady(old(View()))
      ensures state == old(state) | READY && exception == old(exception)
    {
      Flags(state);
      state := state | READY;
    }
  }

  class Future {
    var state: AssocSubState?

    constructor (state: AssocSubState?)
      ensures this.state == state
    {
      this.state := state;
    }

    /** Gives up the reference whatever the outcome.  Waiting is over when the state
        is ready. */
    method Get() returns (outcome: S.Outcome)
      requires state != null && state.View().ready && state.sharedOwners >= 0
      modifies this, state
      ensures state == null && old(state).View() == S.ReleaseShared(old(state.View()))
      ensures outcome == S.Copied(old(state.View()))
      ensures outcome == if old(state.exception).Some? then S.Threw(old(state.exception).value) else S.Value
    {
      var s := state;
      state := null;
      outcome := if s.exception != None then S.Threw(s.exception.value) else S.Value;
      var _ := s.ReleaseShared();
    }
  }

  class Promise {
    var state: AssocSubState?

    constructor ()
      ensures state != null && fresh(state) && state.View() == S.NEW_SUB
    {
      state := new AssocSubState();
    }

    method GetFuture() returns (error: Option<S.FutureError>, future: Future?)
      modifies state
      ensures error == if state == null then Some(S.NoState)
                       else if old(state.View()).attached then Some(S.FutureAlreadyRetrieved) else None
      ensures state != null ==>
                state.View() == if error.Some? then old(state.View())
                                else S.AddShared(old(state.View())).(attached := true)
      ensures error == None <==> future != null
      ensures future != null ==> fresh(future) && future.state == state
    {
      future := null;
      if state == null {
        return Some(S.NoState), null;
      }
      if state.state & FUTURE_ATTACHED != 0 {
        return Some(S.FutureAlreadyRetrieved), null;
      }
      state.AddShared();
      state.SetFutureAttached();
      future := new Future(state);
      error := None;
    }

    /** The destructor: whoever still holds the state finds an outcome there. */
    method Destroy()
      requires state != null ==> state.sharedOwners >= 0
      modifies this, state
      ensures old(state) != null ==>
                var s := old(state.View());
                old(state).View() ==
                  S.ReleaseShared(if !S.HasValue(s) && s.owners > 0
                                  then S.SetException(s, Some(S.BROKEN_PROMISE))
                                  else s)
      ensures old(state) != null && old(state.exception.None? && state.sharedOwners > 0) &&
              old(state.state) & CONSTRUCTED == 0 ==>
                old(state).exception == Some(S.BROKEN_PROMISE) && old(state).state == old(state.state) | READY
      ensures old(state) != null && (old(state.exception.Some? || state.sharedOwners <= 0) ||
                                     old(state.state) & CONSTRUCTED != 0) ==>
                old(state).exception == old(state.exception) && old(state).state == old(state.state)
    {
      if state != null {
        if !state.HasValue() && state.sharedOwners + 1 > 1 {
          var error := state.SetException(Some(S.BROKEN_PROMISE));
          assert error == None;
        }
        var _ := state.ReleaseShared();
      }
    }
  }

  /** A shared future's reference, and how it is assigned. */
  class SharedFuture {
    var state: AssocSubState?

    constructor (state: AssocSubState?)
      ensures this.state == state
    {
      this.state := state;
    }

    /** Takes the new reference before giving up the old one, so that assigning a
        future to itself never deletes the state. */
    method Assign(rhs: SharedFuture)
      requires state != null ==> state.sharedOwners >= 0
      requires rhs.state != null ==> rhs.state.sharedOwners >= 0
      modifies this, state, rhs.state
      ensures state == old(rhs.state)
      ensures old(state) == old(rhs.state) && state != null ==> state.View() == old(state.View())
      ensures old(state) != old(rhs.state) && state != null ==> state.View() == S.AddShared(old(rhs.state.View()))
      ensures old(state) != old(rhs.state) && old(state) != null ==>
                old(state).View() == S.ReleaseShared(old(state.View()))
    {
      if rhs.state != null {
        rhs.state.AddShared();
      }
      if state != null {
        var _ := state.ReleaseShared();
      }
      state := rhs.state;
    }
  }
}
