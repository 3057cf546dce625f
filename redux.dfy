/**
 * The store the commands are dispatched to, seen only through what it is sent.
 * The reducers that turn a dispatched action into a new document tree are not
 * part of this model: the store records the actions, in order, and the
 * dispatches that a timer will run later.
 */
module Redux {

  class Store<A> {
    /** Every action dispatched so far, oldest first. */
    var log: seq<A>
    /** Dispatches scheduled with a timer that has not fired yet, oldest first. */
    var pending: seq<A>

    constructor ()
      ensures log == [] && pending == []
    {
      log := [];
      pending := [];
    }

    /** `dispatch(a)`: the action is delivered now. */
    method Dispatch(a: A)
      modifies this
      ensures log == old(log) + [a]
      ensures pending == old(pending)
    {
      log := log + [a];
    }

    /** `setTimeout(() => dispatch(a), delay)`: the action is delivered after the current dispatches. */
    method Defer(a: A)
      modifies this
      ensures log == old(log)
      ensures pending == old(pending) + [a]
    {
      pending := pending + [a];
    }

    /** The oldest timer fires, if there is one. */
    method RunPending() returns (ran: bool)
      modifies this
      ensures ran <==> old(pending) != []
      ensures ran ==> log == old(log) + [old(pending)[0]] && pending == old(pending)[1..]
      ensures !ran ==> log == old(log) && pending == old(pending)
    {
      ran := pending != [];
      if ran {
        log := log + [pending[0]];
        pending := pending[1..];
      }
    }
  }
}
