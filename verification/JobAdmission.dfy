/** Admission of jobs: full runs, incremental runs, mounts and cancellation share a few sets under
    one lock. Each step is one critical section, or a step of the surroundings. */
module JobAdmission {
  import opened Basics

  type Id = string
  type ThreadId = nat

  datatype Kind = FullRun | IncrementalRun | Mount

  /** Queued waits for a transfer slot; Expired gave up waiting; Skipped found itself cancelled. */
  datatype Phase = Queued | Running | Skipped | Expired | Finishing

  /** doomed records that cancel was called while the thread was queued. */
  datatype Thread = Thread(kind: Kind, job: Id, phase: Phase, doomed: bool)

  /** The live monitor threads. A stopped one can no longer ask its provider: in its last iteration it can
      use a reading it already holds, or a kept listing of its folder that is still young. */
  datatype Watch = Watch(
    monitors: map<ThreadId, Id>,
    stopped: set<ThreadId>,
    late: set<ThreadId>,      // stopped ones that have not read the provider in their last iteration
    holding: set<ThreadId>,   // those with a reading that may lead to a run
    listed: set<Id>)          // jobs whose folder has a young kept listing

  datatype WatchEvent =
    | Start(job: Id, t: ThreadId)
    | Read(t: ThreadId, full: bool)   // the provider answers; a full listing is kept
    | ReadKept(t: ThreadId)
    | LayDown(t: ThreadId)            // the reading leads to no run
    | Stop(t: ThreadId)
    | End(t: ThreadId)
    | Listed(job: Id)                 // somebody else lists the folder
    | Outdated(job: Id)

  datatype Engine = Engine(
    active: set<Id>, waiting: set<Id>, order: seq<Id>, since: map<Id, real>, priority: map<Id, int>,
    incremental: set<Id>, cancelled: set<Id>, processes: set<Id>,
    streaming: set<Id>,              // the jobs whose mode is streaming
    watch: Watch,
    threads: map<ThreadId, Thread>)  // workers, and monitors that are in an incremental run

  datatype Event =
    | RunAsync(job: Id, aiBackup: bool, now: real, t: ThreadId)
    | StartMount(job: Id, mounted: bool, t: ThreadId)
    | BeginIncremental(job: Id, t: ThreadId)
    | Admit(t: ThreadId)          // the worker got its transfer slot
    | Expire(t: ThreadId)         // ... or timed out waiting
    | Launch(t: ThreadId)         // a transfer process is registered
    | EndWork(t: ThreadId)        // the work is over, its process forgotten
    | Close(t: ThreadId)          // the final bookkeeping
    | Cancel(job: Id)
    | Watching(w: WatchEvent)
    | SetMode(job: Id, streams: bool)  // the user edits the job

  /** list.remove: drops the first occurrence. */
  function Remove(s: seq<Id>, x: Id): seq<Id> {
    if s == [] then [] else if s[0] == x then s[1..] else [s[0]] + Remove(s[1..], x)
  }

  predicate Idle(e: Engine, t: ThreadId) {
    t !in e.threads && t !in e.watch.monitors
  }

  predicate CanWatch(e: Engine, w: WatchEvent) {
    match w
    case Start(job, t) => job !in e.streaming && Idle(e, t)
    case Read(t, _) => t in e.watch.monitors && t !in e.threads && t !in e.watch.stopped && t !in e.watch.holding
    case ReadKept(t) =>
      && t in e.watch.monitors && t !in e.threads && t !in e.watch.holding && e.watch.monitors[t] in e.watch.listed
      && (t in e.watch.stopped ==> t in e.watch.late)
    case LayDown(t) => t in e.watch.holding
    case Stop(t) => t in e.watch.monitors && t !in e.watch.stopped
    case End(t) => t in e.watch.monitors && t !in e.threads
    case Listed(_) => true
    case Outdated(_) => true
  }

  function WatchStep(w: Watch, ev: WatchEvent, running: set<ThreadId>): Watch {
    match ev
    case Start(job, t) => w.(monitors := w.monitors[t := job])
    case Read(t, full) =>
      w.(holding := w.holding + {t}, listed := if full && t in w.monitors then w.listed + {w.monitors[t]} else w.listed)
    case ReadKept(t) => w.(holding := w.holding + {t}, late := w.late - {t})
    case LayDown(t) => w.(holding := w.holding - {t})
    case Stop(t) =>
      w.(stopped := w.stopped + {t}, late := if t in running || t in w.holding then w.late else w.late + {t})
    case End(t) =>
      w.(monitors := w.monitors - {t}, stopped := w.stopped - {t}, late := w.late - {t}, holding := w.holding - {t})
    case Listed(job) => w.(listed := w.listed + {job})
    case Outdated(job) => w.(listed := w.listed - {job})
  }

  /** Whether the step can happen: the mode decides what a start means and whether a monitor is started;
      an incremental run is made by a monitor with a reading; before an edit the job's monitors are stopped. */
  predicate Enabled(e: Engine, ev: Event) {
    match ev
    case RunAsync(job, _, _, t) => job !in e.streaming && Idle(e, t)
    case StartMount(job, _, t) => job in e.streaming && Idle(e, t)
    case BeginIncremental(job, t) =>
      t in e.watch.monitors && e.watch.monitors[t] == job && t in e.watch.holding && t !in e.threads
    case Watching(w) => CanWatch(e, w)
    case SetMode(job, _) => forall t <- e.watch.monitors :: e.watch.monitors[t] == job ==> t in e.watch.stopped
    case Admit(t) => t in e.threads && e.threads[t].phase == Queued
    case Expire(t) => t in e.threads && e.threads[t].phase == Queued
    case Launch(t) => t in e.threads && e.threads[t].phase == Running && e.threads[t].kind != Mount
    case EndWork(t) => t in e.threads && e.threads[t].phase == Running
    case Close(t) => t in e.threads && e.threads[t].phase != Queued && e.threads[t].phase != Running
    case Cancel(_) => true
  }

  predicate Accepts(e: Engine, ev: Event) {
    match ev
    case RunAsync(job, _, _, _) => job !in e.active && job !in e.incremental && job !in e.processes
    case StartMount(job, mounted, _) => job !in e.active && !mounted
    case BeginIncremental(job, _) => job !in e.processes && job !in e.active && job !in e.incremental
    case _ => true
  }

  /** Leaving the queue. */
  function Unqueue(e: Engine, job: Id): Engine {
    e.(waiting := e.waiting - {job}, order := Remove(e.order, job), since := e.since - {job},
       priority := e.priority - {job}, cancelled := e.cancelled - {job})
  }

  function Move(e: Engine, t: ThreadId, phase: Phase): Engine
    requires t in e.threads
  {
    e.(threads := e.threads[t := e.threads[t].(phase := phase)])
  }

  /** The monitor's reading is used up, also by a run that is refused. */
  function LayingDown(e: Engine, t: ThreadId): Engine {
    e.(watch := e.watch.(holding := e.watch.holding - {t}))
  }

  function Step(e: Engine, ev: Event): Engine
    requires Enabled(e, ev)
  {
    if !Accepts(e, ev) then (if ev.BeginIncremental? then LayingDown(e, ev.t) else e)
    else match ev
      case RunAsync(job, aiBackup, now, t) =>
        e.(active := e.active + {job}, waiting := e.waiting + {job}, order := e.order + [job],
           since := e.since[job := now], priority := e.priority[job := if aiBackup then 0 else 1],
           cancelled := e.cancelled - {job}, threads := e.threads[t := Thread(FullRun, job, Queued, false)])
      case StartMount(job, _, t) =>
        e.(active := e.active + {job}, threads := e.threads[t := Thread(Mount, job, Running, false)])
      case BeginIncremental(job, t) =>
        LayingDown(e, t).(incremental := e.incremental + {job},
                          threads := e.threads[t := Thread(IncrementalRun, job, Running, false)])
      case Admit(t) =>
        var job := e.threads[t].job;
        Move(Unqueue(e, job), t, if job in e.cancelled then Skipped else Running)
      case Expire(t) => Move(e, t, Expired)
      case Launch(t) => e.(processes := e.processes + {e.threads[t].job})
      case EndWork(t) =>
        var e' := Move(e, t, Finishing);
        if e.threads[t].kind == Mount then e' else e'.(processes := e.processes - {e.threads[t].job})
      case Close(t) =>
        var thread := e.threads[t];
        var e' := e.(threads := e.threads - {t});
        (match thread.kind
         case FullRun => Unqueue(e', thread.job).(active := e.active - {thread.job})
         case IncrementalRun => e'.(incremental := e.incremental - {thread.job})
         case Mount => e'.(active := e.active - {thread.job}))
      case Cancel(job) =>
        if job in e.waiting then
          e.(cancelled := e.cancelled + {job},
             threads := map t | t in e.threads :: if e.threads[t].job == job && e.threads[t].phase == Queued
                                                  then e.threads[t].(doomed := true) else e.threads[t])
        else e
      case Watching(w) => e.(watch := WatchStep(e.watch, w, e.threads.Keys))
      case SetMode(job, streams) => e.(streaming := if streams then e.streaming + {job} else e.streaming - {job})
  }

  const IDLE := Engine({}, {}, [], map[], map[], {}, {}, {}, {}, Watch(map[], {}, {}, {}, {}), map[])

  // ----- What every interleaving keeps -----

  predicate Active(th: Thread) { th.kind != IncrementalRun }

  predicate Incremental(th: Thread) { th.kind == IncrementalRun }

  predicate InQueue(th: Thread) { th.kind == FullRun && (th.phase == Queued || th.phase == Expired) }

  /** Every job of the set belongs to exactly one thread of the class, and every such thread's job is in it. */
  ghost predicate OneEach(jobs: set<Id>, threads: map<ThreadId, Thread>, member: Thread -> bool) {
    && (forall t <- threads :: member(threads[t]) ==> threads[t].job in jobs)
    && (forall job <- jobs :: exists t <- threads :: member(threads[t]) && threads[t].job == job)
    && (forall t, u ::
       t in threads && u in threads && member(threads[t]) && member(threads[u])
       && threads[t].job == threads[u].job ==>
       t == u)
  }

  ghost predicate NoRepeat(s: seq<Id>) {
    forall i, j :: 0 <= i < j < |s| ==> s[i] != s[j]
  }

  /** The queue's set, order, timestamps and priorities speak of the same jobs. */
  ghost predicate QueueAgrees(e: Engine) {
    && NoRepeat(e.order) && (forall job :: job in e.order <==> job in e.waiting)
    && e.since.Keys == e.waiting && e.priority.Keys == e.waiting
    && e.waiting <= e.active && e.cancelled <= e.waiting
  }

  ghost predicate ThreadsAgree(e: Engine) {
    && OneEach(e.active, e.threads, Active)
    && OneEach(e.incremental, e.threads, Incremental)
    && OneEach(e.waiting, e.threads, InQueue)
    && OnlyRunsQueue(e.threads)
  }

  /** A queued thread is doomed exactly when its job is marked; a doomed one never ran, and only
      doomed ones are skipped. */
  ghost predicate DoomFits(cancelled: set<Id>, th: Thread) {
    && (th.doomed ==> th.phase != Running && th.phase != Finishing)
    && (th.phase == Queued ==> (th.doomed <==> th.job in cancelled))
    && (th.phase == Skipped ==> th.doomed)
  }

  ghost predicate DoomHolds(e: Engine) {
    forall t <- e.threads :: DoomFits(e.cancelled, e.threads[t])
  }

  /** A full run and an incremental run never concern the same job. */
  ghost predicate RunsApart(threads: map<ThreadId, Thread>) {
    forall t, u :: t in threads && u in threads && threads[t].kind == FullRun && threads[u].kind == IncrementalRun ==>
        threads[t].job != threads[u].job
  }

  /** Incremental runs are made by the job's own monitors, and by them only; a monitor in a run holds no
      reading and will not read in this iteration again; a streaming job's monitors are stopped. */
  ghost predicate MonitorsAgree(e: Engine) {
    && (forall t <- e.threads ::
          && (e.threads[t].kind == IncrementalRun <==> t in e.watch.monitors)
          && (t in e.watch.monitors ==> e.watch.monitors[t] == e.threads[t].job)
          && t !in e.watch.holding && t !in e.watch.late)
    && e.watch.late <= e.watch.stopped <= e.watch.monitors.Keys && e.watch.holding <= e.watch.monitors.Keys
    && e.watch.late !! e.watch.holding
    && (forall t <- e.watch.monitors :: e.watch.monitors[t] in e.streaming ==> t in e.watch.stopped)
  }

  predicate Owns(th: Thread) { th.kind != Mount && th.phase == Running }

  /** Every registered process belongs to a running thread. */
  ghost predicate Owned(processes: set<Id>, threads: map<ThreadId, Thread>) {
    forall job <- processes :: exists t <- threads :: Owns(threads[t]) && threads[t].job == job
  }

  ghost predicate Inv(e: Engine) {
    && QueueAgrees(e) && ThreadsAgree(e) && DoomHolds(e)
    && RunsApart(e.threads) && MonitorsAgree(e) && Owned(e.processes, e.threads)
  }

  // ----- Threads come, change and go -----

  lemma OneEachAdd(jobs: set<Id>, threads: map<ThreadId, Thread>, member: Thread -> bool, t: ThreadId, th: Thread)
    requires OneEach(jobs, threads, member) && t !in threads && (member(th) ==> th.job !in jobs)
    ensures OneEach(if member(th) then jobs + {th.job} else jobs, threads[t := th], member)
  {
    var jobs', threads' := if member(th) then jobs + {th.job} else jobs, threads[t := th];
    forall job <- jobs' ensures exists u <- threads' :: member(threads'[u]) && threads'[u].job == job {
      if job in jobs {
        var u :| u in threads && member(threads[u]) && threads[u].job == job;
        assert u in threads' && threads'[u] == threads[u];
      } else {
        assert t in threads' && threads'[t] == th;
      }
    }
  }

  lemma OneEachDrop(jobs: set<Id>, threads: map<ThreadId, Thread>, member: Thread -> bool, t: ThreadId)
    requires OneEach(jobs, threads, member) && t in threads
    ensures OneEach(if member(threads[t]) then jobs - {threads[t].job} else jobs, threads - {t}, member)
  {
    var jobs', threads' := if member(threads[t]) then jobs - {threads[t].job} else jobs, threads - {t};
    forall job <- jobs' ensures exists u <- threads' :: member(threads'[u]) && threads'[u].job == job {
      var u :| u in threads && member(threads[u]) && threads[u].job == job;
      assert u in threads' && threads'[u] == threads[u];
    }
  }

  /** A thread changes its phase; it may leave the class but not join it. */
  lemma OneEachMove(jobs: set<Id>, threads: map<ThreadId, Thread>, member: Thread -> bool, t: ThreadId, th: Thread)
    requires OneEach(jobs, threads, member) && t in threads && th.job == threads[t].job
    requires member(th) ==> member(threads[t])
    ensures OneEach(if member(threads[t]) && !member(th) then jobs - {th.job} else jobs, threads[t := th], member)
  {
    var jobs' := if member(threads[t]) && !member(th) then jobs - {th.job} else jobs;
    var threads' := threads[t := th];
    forall job <- jobs' ensures exists u <- threads' :: member(threads'[u]) && threads'[u].job == job {
      var u :| u in threads && member(threads[u]) && threads[u].job == job;
      assert u in threads' && threads'[u] == if u == t then th else threads[u];
    }
  }

  lemma OneEachSame(jobs: set<Id>, threads: map<ThreadId, Thread>, threads': map<ThreadId, Thread>,
      member: Thread -> bool)
    requires OneEach(jobs, threads, member) && threads'.Keys == threads.Keys
    requires forall t <- threads :: threads'[t].job == threads[t].job && (member(threads'[t]) <==> member(threads[t]))
    ensures OneEach(jobs, threads', member)
  {
    forall job <- jobs ensures exists u <- threads' :: member(threads'[u]) && threads'[u].job == job {
      var u :| u in threads && member(threads[u]) && threads[u].job == job;
      assert u in threads';
    }
  }

  /** The others keep their places in line. */
  lemma {:induction false} RemoveKeepsOrder(s: seq<Id>, x: Id, i: nat)
    requires i < |s| && s[i] == x && x !in s[..i]
    ensures Remove(s, x) == s[..i] + s[i+1..]
  {
    if i > 0 {
      assert s[0] == s[..i][0];
      assert s[1..][..i-1] == s[..i][1..] && s[1..][i..] == s[i+1..];
      RemoveKeepsOrder(s[1..], x, i - 1);
      assert [s[0]] + s[..i][1..] == s[..i];
    }
  }

  lemma {:induction false} RemoveFacts(s: seq<Id>, x: Id)
    requires NoRepeat(s)
    ensures NoRepeat(Remove(s, x))
    ensures forall y :: y in Remove(s, x) <==> y in s && y != x
  {
    if s != [] {
      var tail := s[1..];
      assert s == [s[0]] + tail;
      assert s[0] !in tail by { forall i | 0 <= i < |tail| ensures tail[i] != s[0] { assert s[i+1] == tail[i]; } }
      RemoveFacts(tail, x);
      if s[0] != x {
        var rest := Remove(tail, x);
        assert forall i :: 0 <= i < |rest| ==> rest[i] in rest && rest[i] != s[0];
      }
    }
  }

  lemma UnqueueAgrees(e: Engine, job: Id)
    requires QueueAgrees(e)
    ensures QueueAgrees(Unqueue(e, job)) && Unqueue(e, job).waiting == e.waiting - {job}
  {
    RemoveFacts(e.order, job);
  }

  predicate Begins(ev: Event) {
    ev.RunAsync? || ev.StartMount? || ev.BeginIncremental?
  }

  /** The thread an event starts. */
  function Starts(ev: Event): Thread
    requires Begins(ev)
  {
    match ev
    case RunAsync(job, _, _, _) => Thread(FullRun, job, Queued, false)
    case StartMount(job, _, _) => Thread(Mount, job, Running, false)
    case BeginIncremental(job, _) => Thread(IncrementalRun, job, Running, false)
  }

  lemma ActiveStep(e: Engine, ev: Event)
    requires OneEach(e.active, e.threads, Active) && Enabled(e, ev) && Accepts(e, ev)
    ensures OneEach(Step(e, ev).active, Step(e, ev).threads, Active)
  {
    match ev
    case RunAsync(_, _, _, t) => OneEachAdd(e.active, e.threads, Active, t, Starts(ev));
    case StartMount(_, _, t) => OneEachAdd(e.active, e.threads, Active, t, Starts(ev));
    case BeginIncremental(_, t) => OneEachAdd(e.active, e.threads, Active, t, Starts(ev));
    case Admit(t) => OneEachMove(e.active, e.threads, Active, t, Step(e, ev).threads[t]);
    case Expire(t) => OneEachMove(e.active, e.threads, Active, t, Step(e, ev).threads[t]);
    case Launch(t) =>
    case EndWork(t) => OneEachMove(e.active, e.threads, Active, t, Step(e, ev).threads[t]);
    case Close(t) => OneEachDrop(e.active, e.threads, Active, t);
    case Cancel(job) => OneEachSame(e.active, e.threads, Step(e, ev).threads, Active);
    case Watching(_) =>
    case SetMode(_, _) =>
  }

  lemma IncrementalStep(e: Engine, ev: Event)
    requires OneEach(e.incremental, e.threads, Incremental) && Enabled(e, ev) && Accepts(e, ev)
    ensures OneEach(Step(e, ev).incremental, Step(e, ev).threads, Incremental)
  {
    match ev
    case RunAsync(_, _, _, t) => OneEachAdd(e.incremental, e.threads, Incremental, t, Starts(ev));
    case StartMount(_, _, t) => OneEachAdd(e.incremental, e.threads, Incremental, t, Starts(ev));
    case BeginIncremental(_, t) => OneEachAdd(e.incremental, e.threads, Incremental, t, Starts(ev));
    case Admit(t) => OneEachMove(e.incremental, e.threads, Incremental, t, Step(e, ev).threads[t]);
    case Expire(t) => OneEachMove(e.incremental, e.threads, Incremental, t, Step(e, ev).threads[t]);
    case Launch(t) =>
    case EndWork(t) => OneEachMove(e.incremental, e.threads, Incremental, t, Step(e, ev).threads[t]);
    case Close(t) => OneEachDrop(e.incremental, e.threads, Incremental, t);
    case Cancel(job) => OneEachSame(e.incremental, e.threads, Step(e, ev).threads, Incremental);
    case Watching(_) =>
    case SetMode(_, _) =>
  }

  /** The closing thread is in the queue, or its job is not. */
  ghost predicate ClosesCleanly(e: Engine, ev: Event) {
    ev.Close? && ev.t in e.threads ==>
        InQueue(e.threads[ev.t]) || e.threads[ev.t].job !in e.waiting || e.threads[ev.t].kind == IncrementalRun
  }

  ghost predicate OnlyRunsQueue(threads: map<ThreadId, Thread>) {
    forall t <- threads :: threads[t].phase == Queued ==> threads[t].kind == FullRun
  }

  lemma WaitingClose(e: Engine, t: ThreadId)
    requires OneEach(e.waiting, e.threads, InQueue) && OnlyRunsQueue(e.threads)
    requires Enabled(e, Close(t)) && ClosesCleanly(e, Close(t))
    ensures OneEach(Step(e, Close(t)).waiting, Step(e, Close(t)).threads, InQueue)
  {
    OneEachDrop(e.waiting, e.threads, InQueue, t);
    if !InQueue(e.threads[t]) && e.threads[t].kind == FullRun { assert e.waiting - {e.threads[t].job} == e.waiting; }
  }

  lemma WaitingStart(e: Engine, ev: Event)
    requires OneEach(e.waiting, e.threads, InQueue) && e.waiting <= e.active
    requires Enabled(e, ev) && Accepts(e, ev) && Begins(ev)
    ensures OneEach(Step(e, ev).waiting, Step(e, ev).threads, InQueue)
  {
    OneEachAdd(e.waiting, e.threads, InQueue, ev.t, Starts(ev));
  }

  lemma WaitingMove(e: Engine, ev: Event)
    requires OneEach(e.waiting, e.threads, InQueue) && OnlyRunsQueue(e.threads)
    requires Enabled(e, ev) && (ev.Admit? || ev.Expire? || ev.EndWork?)
    ensures OneEach(Step(e, ev).waiting, Step(e, ev).threads, InQueue)
  {
    OneEachMove(e.waiting, e.threads, InQueue, ev.t, Step(e, ev).threads[ev.t]);
  }

  lemma WaitingStep(e: Engine, ev: Event)
    requires OneEach(e.waiting, e.threads, InQueue) && OnlyRunsQueue(e.threads) && e.waiting <= e.active
    requires Enabled(e, ev) && Accepts(e, ev) && ClosesCleanly(e, ev)
    ensures OneEach(Step(e, ev).waiting, Step(e, ev).threads, InQueue)
  {
    match ev
    case RunAsync(_, _, _, _) => WaitingStart(e, ev);
    case StartMount(_, _, _) => WaitingStart(e, ev);
    case BeginIncremental(_, _) => WaitingStart(e, ev);
    case Admit(_) => WaitingMove(e, ev);
    case Expire(_) => WaitingMove(e, ev);
    case Launch(t) =>
    case EndWork(_) => WaitingMove(e, ev);
    case Close(t) => WaitingClose(e, t);
    case Cancel(job) => OneEachSame(e.waiting, e.threads, Step(e, ev).threads, InQueue);
    case Watching(_) =>
    case SetMode(_, _) =>
  }

  lemma OnlyRunsStep(e: Engine, ev: Event)
    requires OnlyRunsQueue(e.threads) && Enabled(e, ev) && Accepts(e, ev)
    ensures OnlyRunsQueue(Step(e, ev).threads)
  {
  }

  lemma QueueLeaves(e: Engine, ev: Event)
    requires QueueAgrees(e) && Enabled(e, ev) && ClosesCleanly(e, ev) && (ev.Admit? || ev.Close?)
    ensures QueueAgrees(Step(e, ev))
  {
    UnqueueAgrees(e, e.threads[ev.t].job);
  }

  lemma QueueStep(e: Engine, ev: Event)
    requires QueueAgrees(e) && Enabled(e, ev) && Accepts(e, ev) && ClosesCleanly(e, ev)
    ensures QueueAgrees(Step(e, ev))
  {
    match ev
    case RunAsync(job, _, _, _) => assert job !in e.order;
    case StartMount(_, _, _) =>
    case BeginIncremental(_, _) =>
    case Admit(_) => QueueLeaves(e, ev);
    case Expire(t) =>
    case Launch(t) =>
    case EndWork(t) =>
    case Close(_) => QueueLeaves(e, ev);
    case Cancel(job) =>
    case Watching(_) =>
    case SetMode(_, _) =>
  }

  /** No other thread queues for the thread's job. */
  ghost predicate Alone(e: Engine, t: ThreadId)
    requires t in e.threads
  {
    forall u <- e.threads :: u != t && e.threads[u].phase == Queued ==> e.threads[u].job != e.threads[t].job
  }

  lemma DoomStep(e: Engine, ev: Event)
    requires DoomHolds(e) && Enabled(e, ev) && Accepts(e, ev) && e.cancelled <= e.waiting <= e.active
    requires (ev.Admit? || (ev.Close? && e.threads[ev.t].kind == FullRun)) ==> Alone(e, ev.t)
    requires forall t <- e.threads :: e.threads[t].phase == Queued ==> e.threads[t].job in e.waiting
    ensures DoomHolds(Step(e, ev))
  {
    var e' := Step(e, ev);
    forall t <- e'.threads ensures DoomFits(e'.cancelled, e'.threads[t]) {
      if t in e.threads { assert DoomFits(e.cancelled, e.threads[t]); }
    }
  }

  lemma ApartStart(threads: map<ThreadId, Thread>, t: ThreadId, th: Thread)
    requires RunsApart(threads) && t !in threads
    requires forall u <- threads :: threads[u].job == th.job ==>
               !(th.kind == FullRun && threads[u].kind == IncrementalRun)
                   && !(th.kind == IncrementalRun && threads[u].kind == FullRun)
    ensures RunsApart(threads[t := th])
  {
  }

  lemma ApartSame(threads: map<ThreadId, Thread>, threads': map<ThreadId, Thread>)
    requires RunsApart(threads)
    requires forall t <- threads' ::
             t in threads && threads'[t].kind == threads[t].kind && threads'[t].job == threads[t].job
    ensures RunsApart(threads')
  {
  }

  lemma BegunThreads(e: Engine, ev: Event)
    requires Enabled(e, ev) && Accepts(e, ev) && Begins(ev)
    ensures Step(e, ev).threads == e.threads[ev.t := Starts(ev)] && ev.t !in e.threads
  {
  }

  /** Threads keep their kind and job. */
  lemma OldThreads(e: Engine, ev: Event)
    requires Enabled(e, ev) && !Begins(ev)
    ensures forall t <- Step(e, ev).threads ::
            t in e.threads && Step(e, ev).threads[t].kind == e.threads[t].kind
            && Step(e, ev).threads[t].job == e.threads[t].job
  {
  }

  lemma BegunApart(e: Engine, ev: Event)
    requires OneEach(e.active, e.threads, Active) && OneEach(e.incremental, e.threads, Incremental)
    requires Begins(ev) && Accepts(e, ev)
    ensures forall u <- e.threads :: e.threads[u].job == Starts(ev).job ==>
              !(Starts(ev).kind == FullRun && e.threads[u].kind == IncrementalRun)
                  && !(Starts(ev).kind == IncrementalRun && e.threads[u].kind == FullRun)
  {
    forall u <- e.threads ensures Active(e.threads[u]) ==> e.threads[u].job in e.active { }
    forall u <- e.threads ensures Incremental(e.threads[u]) ==> e.threads[u].job in e.incremental { }
  }

  lemma ApartStep(e: Engine, ev: Event)
    requires OneEach(e.active, e.threads, Active) && OneEach(e.incremental, e.threads, Incremental)
             && RunsApart(e.threads)
    requires Enabled(e, ev) && Accepts(e, ev)
    ensures RunsApart(Step(e, ev).threads)
  {
    var threads := Step(e, ev).threads;
    if Begins(ev) {
      BegunThreads(e, ev);
      BegunApart(e, ev);
      ApartStart(e.threads, ev.t, Starts(ev));
    } else {
      OldThreads(e, ev);
      ApartSame(e.threads, threads);
    }
  }

  lemma WatchKeeps(e: Engine, w: WatchEvent)
    requires MonitorsAgree(e) && CanWatch(e, w)
    ensures MonitorsAgree(Step(e, Watching(w)))
  {
  }

  lemma MonitorsStep(e: Engine, ev: Event)
    requires MonitorsAgree(e) && Enabled(e, ev) && Accepts(e, ev)
    ensures MonitorsAgree(Step(e, ev))
  {
    if ev.Watching? { WatchKeeps(e, ev.w); }
  }

  /** Owners keep what they own. */
  lemma OwnersStay(processes: set<Id>, threads: map<ThreadId, Thread>, processes': set<Id>,
      threads': map<ThreadId, Thread>)
    requires Owned(processes, threads) && processes' <= processes
    requires forall t <- threads :: Owns(threads[t]) && threads[t].job in processes' ==>
               t in threads' && Owns(threads'[t]) && threads'[t].job == threads[t].job
    ensures Owned(processes', threads')
  {
    forall job <- processes' ensures exists t <- threads' :: Owns(threads'[t]) && threads'[t].job == job {
      var t :| t in threads && Owns(threads[t]) && threads[t].job == job;
      assert t in threads';
    }
  }

  lemma OwnedStep(e: Engine, ev: Event)
    requires Owned(e.processes, e.threads) && Enabled(e, ev) && Accepts(e, ev)
    ensures Owned(Step(e, ev).processes, Step(e, ev).threads)
  {
    var e' := Step(e, ev);
    if ev.Launch? {
      assert Owns(e.threads[ev.t]);
    } else {
      OwnersStay(e.processes, e.threads, e'.processes, e'.threads);
    }
  }

  lemma FullAlone(e: Engine, t: ThreadId)
    requires OneEach(e.active, e.threads, Active) && OnlyRunsQueue(e.threads)
             && t in e.threads && e.threads[t].kind == FullRun
    ensures Alone(e, t)
  {
    forall u <- e.threads | u != t && e.threads[u].phase == Queued ensures e.threads[u].job != e.threads[t].job {
      assert Active(e.threads[u]) && Active(e.threads[t]);
    }
  }

  lemma ClosingIsClean(e: Engine, ev: Event)
    requires OneEach(e.active, e.threads, Active) && OneEach(e.waiting, e.threads, InQueue)
    ensures ClosesCleanly(e, ev)
  {
    if ev.Close? && ev.t in e.threads && Active(e.threads[ev.t]) && e.threads[ev.t].job in e.waiting {
      var u :| u in e.threads && InQueue(e.threads[u]) && e.threads[u].job == e.threads[ev.t].job;
      assert Active(e.threads[u]);
      assert u == ev.t;
    }
  }

  lemma QueuedAreWaiting(e: Engine)
    requires OneEach(e.waiting, e.threads, InQueue) && OnlyRunsQueue(e.threads)
    ensures forall t <- e.threads :: e.threads[t].phase == Queued ==> e.threads[t].job in e.waiting
  {
    forall t <- e.threads | e.threads[t].phase == Queued ensures e.threads[t].job in e.waiting {
      assert InQueue(e.threads[t]);
    }
  }

  lemma StepKeeps(e: Engine, ev: Event)
    requires Inv(e) && Enabled(e, ev)
    ensures Inv(Step(e, ev))
  {
    if Accepts(e, ev) {
      ClosingIsClean(e, ev);
      assert ThreadsAgree(Step(e, ev)) by {
        ActiveStep(e, ev);
        IncrementalStep(e, ev);
        WaitingStep(e, ev);
        OnlyRunsStep(e, ev);
      }
      assert QueueAgrees(Step(e, ev)) by { QueueStep(e, ev); }
      assert DoomHolds(Step(e, ev)) by {
        if ev.Admit? || (ev.Close? && e.threads[ev.t].kind == FullRun) { FullAlone(e, ev.t); }
        QueuedAreWaiting(e);
        DoomStep(e, ev);
      }
      ApartStep(e, ev);
      MonitorsStep(e, ev);
      OwnedStep(e, ev);
    }
  }

  // ----- Interleavings -----

  ghost predicate Legal(e: Engine, events: seq<Event>)
    decreases |events|
  {
    events != [] ==> Enabled(e, events[0]) && Legal(Step(e, events[0]), events[1..])
  }

  function After(e: Engine, events: seq<Event>): Engine
    requires Legal(e, events)
    decreases |events|
  {
    if events == [] then e else After(Step(e, events[0]), events[1..])
  }

  lemma {:induction false} RunKeeps(e: Engine, events: seq<Event>)
    requires Inv(e) && Legal(e, events)
    ensures Inv(After(e, events))
    decreases |events|
  {
    if events != [] {
      StepKeeps(e, events[0]);
      RunKeeps(Step(e, events[0]), events[1..]);
    }
  }

  ghost predicate Reaches(events: seq<Event>, e: Engine) {
    Legal(IDLE, events) && After(IDLE, events) == e
  }

  /** Some interleaving of steps leads here. */
  ghost predicate Reachable(e: Engine) {
    exists events :: Reaches(events, e)
  }

  lemma {:induction false} Onward(e: Engine, first: seq<Event>, rest: seq<Event>)
    requires Legal(e, first) && Legal(After(e, first), rest)
    ensures Legal(e, first + rest) && After(e, first + rest) == After(After(e, first), rest)
    decreases |first|
  {
    var all := first + rest;
    if first == [] {
      assert all == rest;
    } else {
      assert all[0] == first[0] && all[1..] == first[1..] + rest;
      Onward(Step(e, first[0]), first[1..], rest);
    }
  }

  lemma One(e: Engine, ev: Event)
    requires Enabled(e, ev)
    ensures Legal(e, [ev]) && After(e, [ev]) == Step(e, ev)
  {
    assert [ev][1..] == [];
  }

  lemma StepReaches(e: Engine, ev: Event)
    requires Reachable(e) && Enabled(e, ev)
    ensures Reachable(Step(e, ev))
  {
    var events :| Reaches(events, e);
    One(e, ev);
    Onward(IDLE, events, [ev]);
    assert Reaches(events + [ev], Step(e, ev));
  }

  lemma ReachableKeeps(e: Engine)
    requires Reachable(e)
    ensures Inv(e)
  {
    var events :| Reaches(events, e);
    assert Inv(IDLE);
    RunKeeps(IDLE, events);
  }

  /** In every interleaving, mode changes included: a job is in one full run or one mount start at
      most, in one incremental run at most, and never in a full and an incremental run; the queue's
      records agree; exactly the jobs that were cancelled in the queue are skipped. */
  lemma EveryInterleaving(e: Engine)
    requires Reachable(e)
    ensures QueueAgrees(e)
    ensures forall t, u :: t in e.threads && u in e.threads && t != u && e.threads[t].job == e.threads[u].job ==>
              (e.threads[t].kind == Mount && e.threads[u].kind == IncrementalRun)
                  || (e.threads[t].kind == IncrementalRun && e.threads[u].kind == Mount)
    ensures forall t <- e.threads :: e.threads[t].doomed ==>
            e.threads[t].phase != Running && e.threads[t].phase != Finishing
    ensures forall t <- e.threads :: e.threads[t].phase == Skipped ==> e.threads[t].doomed
  {
    ReachableKeeps(e);
    forall t, u | t in e.threads && u in e.threads && t != u && e.threads[t].job == e.threads[u].job
      ensures (e.threads[t].kind == Mount && e.threads[u].kind == IncrementalRun)
              || (e.threads[t].kind == IncrementalRun && e.threads[u].kind == Mount)
    {
      assert Active(e.threads[t]) || Incremental(e.threads[t]);
      assert Active(e.threads[u]) || Incremental(e.threads[u]);
    }
    assert forall t <- e.threads :: DoomFits(e.cancelled, e.threads[t]);
  }

  /** A start is accepted exactly when nothing of the job is left: no thread of it is under way. */
  lemma StartsWhenFree(e: Engine, job: Id, aiBackup: bool, now: real, t: ThreadId)
    requires Reachable(e)
    ensures Accepts(e, RunAsync(job, aiBackup, now, t)) <==> forall u <- e.threads :: e.threads[u].job != job
  {
    ReachableKeeps(e);
    if Accepts(e, RunAsync(job, aiBackup, now, t)) {
      forall u <- e.threads ensures e.threads[u].job != job {
        assert Active(e.threads[u]) || Incremental(e.threads[u]);
      }
    }
  }
}
