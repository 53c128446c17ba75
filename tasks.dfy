/**
 * A scheduled task: a named callback that becomes due `seconds` after it was
 * created or last fired, and that either runs the callback directly or hands
 * it to an event queue.
 */
module Tasks {

  /** Identity of a callback function; its body is foreign code. */
  type CallbackId = nat

  /** A positional or keyword argument passed to a callback, kept opaque. */
  type Value = int

  /** The ('schedule', callback, args) entry a task puts on its event queue. */
  datatype Directive = Schedule(callback: CallbackId, args: seq<Value>)

  /** The event queue a task may point at (its qpointer); only its contents are modelled. */
  class EventQueue {
    var items: seq<Directive>

    constructor ()
      ensures items == []
    {
      items := [];
    }
  }

  /**
   * What firing has happened, in order: every task that fires records itself
   * in `fired`, and one without an event queue also in `invoked`, as its
   * callback is called.
   */
  class CallLog {
    ghost var fired: seq<Task>
    ghost var invoked: seq<Task>

    constructor ()
      ensures fired == [] && invoked == []
    {
      fired := [];
      invoked := [];
    }
  }

  class Task {
    const name: string
    const seconds: real
    const callback: CallbackId
    const args: seq<Value>
    const kwargs: map<string, Value>
    const repeat: bool
    const qpointer: EventQueue?
    /** Absolute time at or after which the task is due. */
    var next: real

    /** A new task is due `seconds` after `now`; a missing args or kwargs is the empty one. */
    constructor (name: string, seconds: real, callback: CallbackId, args: seq<Value>,
                 kwargs: map<string, Value>, repeat: bool, qpointer: EventQueue?, now: real)
      ensures this.name == name && this.seconds == seconds && this.callback == callback
      ensures this.args == args && this.kwargs == kwargs
      ensures this.repeat == repeat && this.qpointer == qpointer
      ensures next == now + seconds
    {
      this.name := name;
      this.seconds := seconds;
      this.callback := callback;
      this.args := args;
      this.kwargs := kwargs;
      this.repeat := repeat;
      this.next := now + seconds;
      this.qpointer := qpointer;
    }

    /** Restarts the timer: the task is next due `seconds` after `now`. */
    method Reset(now: real)
      modifies this
      ensures next == now + seconds
    {
      next := now + seconds;
    }

    /**
     * Fires the task: with an event queue, exactly one directive is appended to
     * it and the callback is not invoked; without one, the callback is invoked
     * once, which `log` records. Either way the timer is restarted and the
     * repeat flag is returned.
     */
    method Run(now: real, ghost log: CallLog) returns (again: bool)
      modifies this, qpointer, log
      ensures again == repeat
      ensures next == now + seconds
      ensures log.fired == old(log.fired) + [this]
      ensures qpointer != null ==>
                qpointer.items == old(qpointer.items) + [Schedule(callback, args)] &&
                log.invoked == old(log.invoked)
      ensures qpointer == null ==> log.invoked == old(log.invoked) + [this]
    {
      if qpointer != null {
        qpointer.items := qpointer.items + [Schedule(callback, args)];
      } else {
        log.invoked := log.invoked + [this];
      }
      log.fired := log.fired + [this];
      Reset(now);
      again := repeat;
    }
  }
}
