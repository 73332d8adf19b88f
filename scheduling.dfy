/** The scheduling bookkeeping of level/task/ScheduledTaskService.java. The
    executor thread is not modelled: a scheduled future is a slot that is
    either empty (`null`) or holds the command it was armed with, the delay
    it was armed with and whether it has been cancelled since. The delay a
    running future still has to wait (`getDelay`) is time-dependent and is
    an input of `suspend`. */
module Scheduling {
  import opened Wrappers

  /** A future handed out by the executor. */
  datatype Timer<C> = Timer(command: C, delay: int, cancelled: bool)

  /** The three fields of the service, `futur`, `remainingDelay` and
      `command`, as one value. */
  datatype Service<C> = Service(futur: Option<Timer<C>>, remainingDelay: int, command: Option<C>)

  /** A new service: no future, no delay (Java's default `0`), no command. */
  function Fresh<C>(): Service<C> {
    Service(None, 0, None)
  }

  /** A future is waiting to run the command. */
  predicate Armed<C>(s: Service<C>) {
    s.futur.Some? && !s.futur.value.cancelled
  }

  /** The service holds a command whenever it holds a delay to resume
      with, or a future: `resume` never hands the executor a `null`
      command. */
  predicate Consistent<C>(s: Service<C>) {
    s.command.None? ==> s.remainingDelay == 0 && s.futur.None?
  }

  /** `schedule(command, delay, startNow)`: the command is stored; started
      now, it is armed with the delay and nothing is left to resume
      (a future that was already there is overwritten, not cancelled);
      otherwise the delay is kept for the next `resume`. */
  function Scheduled<C>(s: Service<C>, command: C, delay: int, startNow: bool): (r: Service<C>)
    ensures Consistent(r)
    ensures r.command == Some(command)
    ensures startNow ==> Armed(r) && r.futur.value == Timer(command, delay, false) && r.remainingDelay == 0
    ensures !startNow ==> r.futur == s.futur && r.remainingDelay == delay
  {
    if startNow then Service(Some(Timer(command, delay, false)), 0, Some(command))
    else Service(s.futur, delay, Some(command))
  }

  /** `suspend()`: with a future, the delay it still has (`observed`) is
      kept for `resume` and the future is cancelled; with none, nothing
      happens. The future stays in the slot, cancelled. */
  function Suspended<C>(s: Service<C>, observed: int): (r: Service<C>)
    ensures Consistent(s) ==> Consistent(r)
    ensures !Armed(r) && r.command == s.command
    ensures s.futur.None? ==> r == s
  {
    if s.futur.Some? then Service(Some(s.futur.value.(cancelled := true)), observed, s.command)
    else s
  }

  /** `resume()`: a non-zero stored delay arms the stored command with it;
      the stored delay itself is not cleared. */
  function Resumed<C>(s: Service<C>): (r: Service<C>)
    requires Consistent(s)
    ensures Consistent(r)
    ensures r.remainingDelay == s.remainingDelay && r.command == s.command
    ensures s.remainingDelay != 0 ==> Armed(r) && r.futur.value == Timer(s.command.value, s.remainingDelay, false)
    ensures s.remainingDelay == 0 ==> r == s
  {
    if s.remainingDelay != 0 then s.(futur := Some(Timer(s.command.value, s.remainingDelay, false)))
    else s
  }

  /** `cancelTask()`: a future is cancelled and the slot emptied; the
      stored delay is kept. */
  function Cancelled<C>(s: Service<C>): (r: Service<C>)
    ensures Consistent(s) ==> Consistent(r)
    ensures r.futur.None? && r.remainingDelay == s.remainingDelay && r.command == s.command
  {
    if s.futur.Some? then s.(futur := None) else s
  }

  /** A paused and resumed timer runs its command again with the delay it
      still had, unless that delay read as 0. */
  lemma PauseResume<C>(s: Service<C>, observed: int)
    requires Consistent(s) && s.futur.Some?
    ensures Resumed(Suspended(s, observed)).remainingDelay == observed
    ensures Armed(Resumed(Suspended(s, observed))) <==> observed != 0
    ensures observed != 0 ==> Resumed(Suspended(s, observed)).futur == Some(Timer(s.command.value, observed, false))
  {
  }

  /** A timer that is due within the millisecond when the level is paused
      (its delay reads as 0) is not armed again by `resume`: the command
      is dropped. */
  lemma DueTimerDropped<C>(s: Service<C>)
    requires Consistent(s) && Armed(s)
    ensures !Armed(Resumed(Suspended(s, 0)))
  {
  }

  /** A schedule that does not start now arms its command on the next
      `resume`, with the delay it was given, unless that delay is 0. */
  lemma DeferredStart<C>(s: Service<C>, command: C, delay: int)
    requires Consistent(s) && !Armed(s)
    ensures Armed(Resumed(Scheduled(s, command, delay, false))) <==> delay != 0
    ensures delay != 0 ==> Resumed(Scheduled(s, command, delay, false)).futur == Some(Timer(command, delay, false))
  {
  }

  /** `cancelTask` does not clear the stored delay, so a later `resume`
      arms the stored command again when that delay is non-zero. */
  lemma CancelThenResume<C>(s: Service<C>)
    requires Consistent(s)
    ensures Armed(Resumed(Cancelled(s))) <==> s.remainingDelay != 0
  {
  }

  /** Resuming twice is resuming once. */
  lemma ResumeIdempotent<C>(s: Service<C>)
    requires Consistent(s)
    ensures Resumed(Resumed(s)) == Resumed(s)
  {
  }

  /** The service object: its methods update the three fields in place. */
  class ScheduledTaskService<C> {
    var futur: Option<Timer<C>>
    var remainingDelay: int
    var command: Option<C>

    function State(): Service<C>
      reads this
    {
      Service(futur, remainingDelay, command)
    }

    ghost predicate Valid()
      reads this
    {
      Consistent(State())
    }

    constructor()
      ensures State() == Fresh() && Valid()
    {
      futur := None;
      remainingDelay := 0;
      command := None;
    }

    method Schedule(c: C, delay: int, startNow: bool)
      modifies this
      ensures State() == Scheduled(old(State()), c, delay, startNow) && Valid()
    {
      command := Some(c);
      if startNow {
        remainingDelay := 0;
        futur := Some(Timer(c, delay, false));
      } else {
        remainingDelay := delay;
      }
    }

    method Suspend(observed: int)
      requires Valid()
      modifies this
      ensures State() == Suspended(old(State()), observed) && Valid()
    {
      if futur.Some? {
        remainingDelay := observed;
        futur := Some(futur.value.(cancelled := true));
      }
    }

    method Resume()
      requires Valid()
      modifies this
      ensures State() == Resumed(old(State())) && Valid()
    {
      if remainingDelay != 0 {
        futur := Some(Timer(command.value, remainingDelay, false));
      }
    }

    method CancelTask()
      requires Valid()
      modifies this
      ensures State() == Cancelled(old(State())) && Valid()
    {
      if futur.Some? {
        futur := None;
      }
    }
  }

  /** Resumes every service of the set, one after the other. */
  method ResumeAll<C>(services: set<ScheduledTaskService<C>>)
    requires forall s :: s in services ==> s.Valid()
    modifies services
    ensures forall s :: s in services ==> old(s.Valid()) && s.Valid() && s.State() == Resumed(old(s.State()))
    ensures forall s: ScheduledTaskService<C> :: old(allocated(s)) && old(s.Valid()) ==> s.Valid()
  {
    var todo := services;
    while todo != {}
      invariant todo <= services
      invariant forall s: ScheduledTaskService<C> :: old(allocated(s)) && old(s.Valid()) ==> s.Valid()
      invariant forall s :: s in services - todo ==> old(s.Valid()) && s.Valid() && s.State() == Resumed(old(s.State()))
      invariant forall s :: s in todo ==> s.State() == old(s.State())
      decreases |todo|
    {
      var s :| s in todo;
      s.Resume();
      todo := todo - {s};
    }
  }

  /** Suspends every service of the set; `observed(s)` is the delay the
      future of `s` still has at that moment. */
  method SuspendAll<C>(services: set<ScheduledTaskService<C>>, observed: ScheduledTaskService<C> -> int)
    requires forall s :: s in services ==> s.Valid()
    modifies services
    ensures forall s :: s in services ==> s.Valid() && s.State() == Suspended(old(s.State()), observed(s))
    ensures forall s: ScheduledTaskService<C> :: old(allocated(s)) && old(s.Valid()) ==> s.Valid()
  {
    var todo := services;
    while todo != {}
      invariant todo <= services
      invariant forall s: ScheduledTaskService<C> :: old(allocated(s)) && old(s.Valid()) ==> s.Valid()
      invariant forall s :: s in services - todo ==> s.Valid() && s.State() == Suspended(old(s.State()), observed(s))
      invariant forall s :: s in todo ==> s.State() == old(s.State())
      decreases |todo|
    {
      var s :| s in todo;
      s.Suspend(observed(s));
      todo := todo - {s};
    }
  }
}
