/** The engine's admission state as an object: critical sections under one lock. */
module LockedEngine {
  import opened JobAdmission

  // ----- What a critical section finds -----

  lemma RemoveMissing(s: seq<Id>, x: Id)
    ensures x !in s ==> Remove(s, x) == s
  {
  }

  /** What only the queue's leaving changes: the rest is as before. */
  predicate SameElsewhere(e: Engine, e': Engine) {
    e'.incremental == e.incremental && e'.processes == e.processes && e'.streaming == e.streaming && e'.watch == e.watch
  }

  /** The job is gone from the queue and its records. */
  predicate LeftQueue(e: Engine, e': Engine, job: Id) {
    && e'.waiting == e.waiting - {job} && e'.order == (if job in e.order then Remove(e.order, job) else e.order)
    && e'.since == e.since - {job} && e'.priority == e.priority - {job} && e'.cancelled == e.cancelled - {job}
  }

  lemma Admitted(e: Engine, t: ThreadId, job: Id, e': Engine, skip: bool)
    requires Reachable(e) && Enabled(e, Admit(t)) && e.threads[t].job == job && skip == (job in e.cancelled)
    requires SameElsewhere(e, e') && LeftQueue(e, e', job) && e'.active == e.active
    requires e'.threads == e.threads[t := e.threads[t].(phase := if skip then Skipped else Running)]
    ensures e' == Step(e, Admit(t)) && Reachable(e') && (skip <==> e.threads[t].doomed)
    ensures job !in e'.waiting && job !in e'.order && job in e'.active
  {
    LeavingFacts(e, t);
    RemoveMissing(e.order, job);
    StepReaches(e, Admit(t));
  }

  lemma Closed(e: Engine, t: ThreadId, job: Id, e': Engine)
    requires Reachable(e) && Enabled(e, Close(t)) && e.threads[t].kind == FullRun && e.threads[t].job == job
    requires SameElsewhere(e, e') && LeftQueue(e, e', job) && e'.active == e.active - {job}
             && e'.threads == e.threads - {t}
    ensures e' == Step(e, Close(t)) && Reachable(e')
    ensures job !in e'.active && job !in e'.waiting && job !in e'.order
            && job !in e'.incremental && job !in e'.cancelled
  {
    ClosingFacts(e, t);
    RemoveMissing(e.order, job);
    StepReaches(e, Close(t));
  }

  /** The job appears in the queue and all its records at once. */
  lemma Started(e: Engine, job: Id, aiBackup: bool, now: real, t: ThreadId, e': Engine)
    requires Reachable(e) && Enabled(e, RunAsync(job, aiBackup, now, t)) && Accepts(e, RunAsync(job, aiBackup, now, t))
    requires SameElsewhere(e, e') && e'.active == e.active + {job} && e'.waiting == e.waiting + {job}
    requires e'.order == e.order + [job] && e'.since == e.since[job := now]
    requires e'.priority == e.priority[job := if aiBackup then 0 else 1] && e'.cancelled == e.cancelled - {job}
    requires e'.threads == e.threads[t := Thread(FullRun, job, Queued, false)]
    ensures e' == Step(e, RunAsync(job, aiBackup, now, t)) && Reachable(e')
    ensures forall u <- e.threads :: e.threads[u].job != job
  {
    StepReaches(e, RunAsync(job, aiBackup, now, t));
    StartsWhenFree(e, job, aiBackup, now, t);
  }

  lemma Refused(e: Engine, job: Id, aiBackup: bool, now: real, t: ThreadId)
    requires Reachable(e) && !Accepts(e, RunAsync(job, aiBackup, now, t))
    ensures exists u <- e.threads :: e.threads[u].job == job
  {
    StartsWhenFree(e, job, aiBackup, now, t);
  }

  lemma LeavingFacts(e: Engine, t: ThreadId)
    requires Reachable(e) && Enabled(e, Admit(t))
    ensures e.threads[t].doomed <==> e.threads[t].job in e.cancelled
    ensures e.threads[t].job in e.active && e.threads[t].job !in Remove(e.order, e.threads[t].job)
  {
    ReachableKeeps(e);
    assert DoomFits(e.cancelled, e.threads[t]);
    assert Active(e.threads[t]);
    RemoveFacts(e.order, e.threads[t].job);
  }

  lemma ClosingFacts(e: Engine, t: ThreadId)
    requires Reachable(e) && Enabled(e, Close(t)) && e.threads[t].kind == FullRun
    ensures e.threads[t].job !in e.incremental && e.threads[t].job !in Remove(e.order, e.threads[t].job)
  {
    ReachableKeeps(e);
    assert Active(e.threads[t]);
    RemoveFacts(e.order, e.threads[t].job);
  }

  /** After a cancellation every queued thread of the job is doomed. */
  lemma CancelDooms(e: Engine, job: Id)
    requires Reachable(e)
    ensures var threads := Step(e, Cancel(job)).threads;
            forall t <- threads :: threads[t].job == job && threads[t].phase == Queued ==> threads[t].doomed
  {
    assert forall t <- e.threads :: e.threads[t].phase == Queued ==> e.threads[t].job in e.waiting by {
      ReachableKeeps(e);
      QueuedAreWaiting(e);
    }
  }

  // ----- What a cancellation reaches -----

  /** A cancellation reaches a full run if and only if the run is still queued, where it will be skipped,
      or has a registered process, which is signalled. */
  lemma CancelReachesExactly(e: Engine, t: ThreadId)
    requires Reachable(e) && t in e.threads && e.threads[t].kind == FullRun && !e.threads[t].doomed
    requires e.threads[t].phase == Queued || e.threads[t].phase == Running
    ensures var job := e.threads[t].job;
            Step(e, Cancel(job)).threads[t].doomed || job in e.processes <==>
                e.threads[t].phase == Queued || job in e.processes
    ensures var job := e.threads[t].job;
            e.threads[t].phase == Running && job !in e.processes ==> Step(e, Cancel(job)) == e
  {
    var job := e.threads[t].job;
    assert e.threads[t].phase == Queued ==> job in e.waiting by {
      ReachableKeeps(e);
      QueuedAreWaiting(e);
    }
    if e.threads[t].phase == Running {
      assert job !in e.waiting by {
        ReachableKeeps(e);
        RunningIsNotWaiting(e, t);
      }
    }
  }

  lemma RunningIsNotWaiting(e: Engine, t: ThreadId)
    requires ThreadsAgree(e) && t in e.threads && e.threads[t].kind == FullRun && e.threads[t].phase == Running
    ensures e.threads[t].job !in e.waiting
  {
    if e.threads[t].job in e.waiting { TwoRuns(e, t); }
  }

  lemma TwoRuns(e: Engine, t: ThreadId)
    requires ThreadsAgree(e) && t in e.threads && e.threads[t].kind == FullRun && e.threads[t].job in e.waiting
    ensures InQueue(e.threads[t])
  {
    var u :| u in e.threads && InQueue(e.threads[u]) && e.threads[u].job == e.threads[t].job;
    assert Active(e.threads[t]) && Active(e.threads[u]);
  }

  /** A run that left the queue and has not started its process loses a cancellation and goes on. */
  lemma CancelIsLost(job: Id, now: real)
    ensures var events := [RunAsync(job, false, now, 0), Admit(0)];
            && Legal(IDLE, events)
            && var e := After(IDLE, events);
               && 0 in e.threads && e.threads[0].phase == Running && Step(e, Cancel(job)) == e
               && Enabled(Step(e, Cancel(job)), Launch(0)) && job in Step(Step(e, Cancel(job)), Launch(0)).processes
  {
    var a, b := RunAsync(job, false, now, 0), Admit(0);
    One(IDLE, a);
    var e1 := Step(IDLE, a);
    One(e1, b);
    Onward(IDLE, [a], [b]);
    assert [a] + [b] == [a, b];
  }

  // ----- The engine's own fields -----

  /** The engine as it is kept: each method is one critical section under the engine's lock. The
      jobs' modes and the threads that are under way exist only for the proof. */
  class SyncEngine {
    var active: set<Id>
    var waiting: set<Id>
    var order: seq<Id>
    var since: map<Id, real>
    var priority: map<Id, int>
    var incremental: set<Id>
    var cancelled: set<Id>
    var processes: set<Id>
    ghost var streaming: set<Id>
    ghost var watch: Watch
    ghost var threads: map<ThreadId, Thread>

    ghost function State(): Engine
      reads this
    {
      Engine(active, waiting, order, since, priority, incremental, cancelled, processes, streaming, watch, threads)
    }

    /** Some interleaving of critical sections leads to this state. */
    ghost predicate Valid()
      reads this
    {
      Reachable(State())
    }

    /** The event is possible now. */
    ghost predicate May(ev: Event)
      reads this
    {
      Valid() && Enabled(State(), ev)
    }

    constructor ()
      ensures Valid() && State() == IDLE
    {
      active, waiting, order, since, priority := {}, {}, [], map[], map[];
      incremental, cancelled, processes := {}, {}, {};
      streaming, watch, threads := {}, Watch(map[], {}, {}, {}, {}), map[];
      new;
      assert Reaches([], State());
    }

    method RunAsync(job: Id, aiBackup: bool, now: real, ghost t: ThreadId) returns (started: bool)
      requires May(Event.RunAsync(job, aiBackup, now, t))
      modifies this
      ensures Valid() && State() == Step(old(State()), Event.RunAsync(job, aiBackup, now, t))
      ensures started <==> forall u <- old(threads) :: old(threads)[u].job != job
      ensures started ==>
              order == old(order) + [job] && since[job] == now && priority[job] == (if aiBackup then 0 else 1)
      ensures !started ==> State() == old(State())
    {
      ghost var e := State();
      if job in active || job in incremental || job in processes {
        Refused(e, job, aiBackup, now, t);
        return false;
      }
      active := active + {job};
      waiting := waiting + {job};
      order := order + [job];
      since := since[job := now];
      priority := priority[job := if aiBackup then 0 else 1];
      cancelled := cancelled - {job};
      threads := threads[t := Thread(FullRun, job, Queued, false)];
      Started(e, job, aiBackup, now, t, State());
      return true;
    }

    method StartMount(job: Id, mounted: bool, ghost t: ThreadId) returns (started: bool)
      requires May(Event.StartMount(job, mounted, t))
      modifies this
      ensures Valid() && State() == Step(old(State()), Event.StartMount(job, mounted, t))
      ensures started <==> job !in old(active) && !mounted
    {
      StepReaches(State(), Event.StartMount(job, mounted, t));
      if job in active || mounted { return false; }
      active := active + {job};
      threads := threads[t := Thread(Mount, job, Running, false)];
      return true;
    }

    /** The opening section of an incremental application. */
    method BeginIncremental(job: Id, ghost t: ThreadId) returns (started: bool)
      requires May(Event.BeginIncremental(job, t))
      modifies this
      ensures Valid() && State() == Step(old(State()), Event.BeginIncremental(job, t))
      ensures started <==> forall u <- old(threads) :: old(threads)[u].job != job
      ensures !started ==> State() == LayingDown(old(State()), t)
    {
      StepReaches(State(), Event.BeginIncremental(job, t));
      StartsWhenFree(State(), job, false, 0.0, t);
      watch := LayingDown(State(), t).watch;
      if job in processes || job in active || job in incremental { return false; }
      incremental := incremental + {job};
      threads := threads[t := Thread(IncrementalRun, job, Running, false)];
      return true;
    }

    /** Takes the job out of the queue and its records; both sections below end with this. */
    method Unqueue(job: Id)
      modifies this`waiting, this`order, this`since, this`priority, this`cancelled
      ensures waiting == old(waiting) - {job}
              && order == (if job in old(order) then Remove(old(order), job) else old(order))
      ensures since == old(since) - {job} && priority == old(priority) - {job} && cancelled == old(cancelled) - {job}
    {
      waiting := waiting - {job};
      if job in order { order := Remove(order, job); }
      since := since - {job};
      priority := priority - {job};
      cancelled := cancelled - {job};
    }

    /** A queued worker got its slot: it skips its work exactly when it was cancelled in the queue. */
    method LeaveQueue(job: Id, ghost t: ThreadId) returns (skip: bool)
      requires May(Admit(t)) && threads[t].job == job
      modifies this
      ensures Valid() && State() == Step(old(State()), Admit(t))
      ensures skip <==> old(threads[t].doomed)
      ensures job !in waiting && job !in order && job in active
    {
      ghost var e := State();
      skip := job in cancelled;
      Unqueue(job);
      threads := threads[t := threads[t].(phase := if skip then Skipped else Running)];
      Admitted(e, t, job, State(), skip);
    }

    /** The closing section of a bounded worker, however it ended. */
    method CloseRun(job: Id, ghost t: ThreadId)
      requires May(Close(t)) && threads[t].kind == FullRun && threads[t].job == job
      modifies this
      ensures Valid() && State() == Step(old(State()), Close(t))
      ensures job !in active && job !in waiting && job !in order && job !in incremental && job !in cancelled
    {
      ghost var e := State();
      active := active - {job};
      Unqueue(job);
      threads := threads - {t};
      Closed(e, t, job, State());
    }

    method CloseMount(job: Id, ghost t: ThreadId)
      requires May(Close(t)) && threads[t].kind == Mount && threads[t].job == job
      modifies this
      ensures Valid() && State() == Step(old(State()), Close(t))
    {
      StepReaches(State(), Close(t));
      active := active - {job};
      threads := threads - {t};
    }

    method EndIncremental(job: Id, ghost t: ThreadId)
      requires May(Close(t)) && threads[t].kind == IncrementalRun && threads[t].job == job
      modifies this
      ensures Valid() && State() == Step(old(State()), Close(t))
    {
      StepReaches(State(), Close(t));
      incremental := incremental - {job};
      threads := threads - {t};
    }

    /** A transfer process of the job is registered. */
    method Register(job: Id, ghost t: ThreadId)
      requires May(Launch(t)) && threads[t].job == job
      modifies this
      ensures Valid() && State() == Step(old(State()), Launch(t))
    {
      StepReaches(State(), Launch(t));
      processes := processes + {job};
    }

    /** The work is over: its process is forgotten, and no other thread had one for the job. */
    method Forget(job: Id, ghost t: ThreadId)
      requires May(EndWork(t)) && threads[t].kind != Mount && threads[t].job == job
      modifies this
      ensures Valid() && State() == Step(old(State()), EndWork(t))
      ensures job !in processes
    {
      StepReaches(State(), EndWork(t));
      processes := processes - {job};
      threads := threads[t := threads[t].(phase := Finishing)];
    }

    /** What happens without the engine's sets: a timeout, a mount start's end, monitors, the user's edits. */
    ghost method Elsewhere(ev: Event)
      requires May(ev)
      requires ev.Expire? || (ev.EndWork? && threads[ev.t].kind == Mount) || ev.Watching? || ev.SetMode?
      modifies this`threads, this`watch, this`streaming
      ensures Valid() && State() == Step(old(State()), ev)
    {
      StepReaches(State(), ev);
      var e := Step(State(), ev);
      threads, watch, streaming := e.threads, e.watch, e.streaming;
    }

    /** alive: the job's process has not ended; gone: it ended before the signal reached it. */
    method Cancel(job: Id, native: bool, alive: bool, gone: bool) returns (handled: bool)
      requires Valid()
      modifies this
      ensures Valid() && State() == Step(old(State()), Event.Cancel(job))
      ensures handled <==> if job in processes && alive then !gone else native || job in waiting
      ensures forall t <- threads :: threads[t].job == job && threads[t].phase == Queued ==> threads[t].doomed
    {
      StepReaches(State(), Event.Cancel(job));
      CancelDooms(State(), job);
      var queued := job in waiting;
      if queued {
        cancelled := cancelled + {job};
        threads := Step(State(), Event.Cancel(job)).threads;
      }
      if job !in processes || !alive { return native || queued; }
      return !gone;
    }
  }
}
