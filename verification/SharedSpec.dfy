/** The state that a promise and its futures share, and what one mutex-protected
    step does to it. */
module SharedSpec {
  import opened Options

  type Exception = nat

  /** Stored by the destructor of a promise that was never satisfied. */
  const BROKEN_PROMISE: Exception := 0

  datatype FutureError = PromiseAlreadySatisfied | FutureAlreadyRetrieved | NoState

  /** A missing exception is a null pointer.  The count of owners is one less than
      the number of references. */
  datatype Sub = Sub(constructed: bool, exception: Option<Exception>, attached: bool, ready: bool,
                     owners: int, freed: nat)

  const NEW_SUB := Sub(false, None, false, false, 0, 0)

  predicate HasValue(s: Sub) {
    s.constructed || s.exception.Some?
  }

  datatype Outcome = Value | Threw(exception: Exception)

  /** What copy returns or throws once the state is ready. */
  function Copied(s: Sub): Outcome {
    if s.exception.Some? then Threw(s.exception.value) else Value
  }

  function SetValue(s: Sub): Sub { s.(constructed := true, ready := true) }

  function SetValueAtThreadExit(s: Sub): Sub { s.(constructed := true) }

  function SetException(s: Sub, p: Option<Exception>): Sub { s.(exception := p, ready := true) }

  function SetExceptionAtThreadExit(s: Sub, p: Option<Exception>): Sub { s.(exception := p) }

  function MakeReady(s: Sub): Sub { s.(ready := true) }

  function AddShared(s: Sub): Sub { s.(owners := s.owners + 1) }

  /** The state is deleted when the count falls to -1. */
  function ReleaseShared(s: Sub): Sub {
    s.(owners := s.owners - 1, freed := if s.owners == 0 then s.freed + 1 else s.freed)
  }
}
