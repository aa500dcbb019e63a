/** What editing a job does to runs under way: a mount beside an incremental run. */
module ModeChanges {
  import opened Basics
  import opened JobAdmission

  /** The job is in an incremental run while its mount is being started. */
  predicate Overlaps(e: Engine, job: Id) {
    job in e.active && job in e.incremental
  }

  predicate Watched(e: Engine, job: Id) {
    exists t <- e.watch.monitors :: e.watch.monitors[t] == job
  }

  /** No job overlaps and no streaming job is watched. */
  ghost predicate Apart(e: Engine) {
    && (forall job :: !Overlaps(e, job))
    && (forall job :: job in e.streaming ==> !Watched(e, job))
  }

  /** A job becomes a streaming one only once none of its monitors is alive. */
  predicate Waits(e: Engine, ev: Event) {
    ev.SetMode? && ev.streams ==> !Watched(e, ev.job)
  }

  ghost predicate AllWait(e: Engine, events: seq<Event>)
    requires Legal(e, events)
    decreases |events|
  {
    events != [] ==> Waits(e, events[0]) && AllWait(Step(e, events[0]), events[1..])
  }

  /** An incremental run is watched. */
  lemma RunsAreWatched(e: Engine, job: Id)
    requires OneEach(e.incremental, e.threads, Incremental) && MonitorsAgree(e) && job in e.incremental
    ensures Watched(e, job)
  {
    var t :| t in e.threads && Incremental(e.threads[t]) && e.threads[t].job == job;
    assert t in e.watch.monitors && e.watch.monitors[t] == job;
  }

  lemma OverlapBefore(e: Engine, ev: Event, job: Id)
    requires Enabled(e, ev) && Overlaps(Step(e, ev), job)
    ensures Overlaps(e, job) || (ev.StartMount? && ev.job == job && job in e.streaming && job in e.incremental)
  {
  }

  lemma StreamingBefore(e: Engine, ev: Event, job: Id)
    requires Enabled(e, ev) && job in Step(e, ev).streaming
    ensures job in e.streaming || ev == SetMode(job, true)
  {
  }

  lemma WaitingKeepsApart(e: Engine, ev: Event)
    requires Inv(e) && Apart(e) && Enabled(e, ev) && Waits(e, ev)
    ensures Apart(Step(e, ev))
  {
    var e' := Step(e, ev);
    forall job ensures !Overlaps(e', job) {
      if job in e.incremental { RunsAreWatched(e, job); }
      if Overlaps(e', job) { OverlapBefore(e, ev, job); }
    }
    forall job | job in e'.streaming ensures !Watched(e', job) {
      StreamingBefore(e, ev, job);
      if Watched(e', job) { WatchedBefore(e, ev, job); }
    }
  }

  lemma WatchedBefore(e: Engine, ev: Event, job: Id)
    requires Enabled(e, ev) && Watched(Step(e, ev), job)
    ensures Watched(e, job) || (ev.Watching? && ev.w.Start? && ev.w.job == job)
  {
    var e' := Step(e, ev);
    var t :| t in e'.watch.monitors && e'.watch.monitors[t] == job;
    assert t in e.watch.monitors ==> e.watch.monitors[t] == job;
  }

  /** When mode changes wait for the monitors, every job has at most one thread, in every interleaving. */
  lemma {:induction false} WaitingModesNeverOverlap(e: Engine, events: seq<Event>)
    requires Inv(e) && Apart(e) && Legal(e, events) && AllWait(e, events)
    ensures var e' := After(e, events);
            && Inv(e') && Apart(e')
            && forall t, u :: t in e'.threads && u in e'.threads && e'.threads[t].job == e'.threads[u].job ==> t == u
    decreases |events|
  {
    if events == [] {
      forall t, u | t in e.threads && u in e.threads && e.threads[t].job == e.threads[u].job ensures t == u {
        assert !Overlaps(e, e.threads[t].job);
        assert Active(e.threads[t]) || Incremental(e.threads[t]);
        assert Active(e.threads[u]) || Incremental(e.threads[u]);
      }
    } else {
      StepKeeps(e, events[0]);
      WaitingKeepsApart(e, events[0]);
      WaitingModesNeverOverlap(Step(e, events[0]), events[1..]);
    }
  }

  // ----- The exact condition -----

  /** No mode changes, and nobody else lists the folder. */
  predicate Calm(ev: Event) {
    !ev.SetMode? && !(ev.Watching? && ev.w.Listed?)
  }

  predicate AllCalm(events: seq<Event>) {
    forall ev <- events :: Calm(ev)
  }

  /** The monitor is in a run, holds a reading, or can still use a kept listing in its last iteration. */
  predicate Armed(e: Engine, t: ThreadId) {
    && t in e.watch.monitors
    && (t in e.threads || t in e.watch.holding || (t in e.watch.late && e.watch.monitors[t] in e.watch.listed))
  }

  predicate ArmedJob(e: Engine, job: Id) {
    exists t <- e.watch.monitors :: e.watch.monitors[t] == job && Armed(e, t)
  }

  /** Some calm continuation after the mode change mounts the job beside an incremental run. */
  ghost predicate CanOverlap(e: Engine, job: Id)
    requires Enabled(e, SetMode(job, true))
  {
    exists rest :: OverlapsBy(Step(e, SetMode(job, true)), rest, job)
  }

  ghost predicate OverlapsBy(e: Engine, rest: seq<Event>, job: Id) {
    AllCalm(rest) && Legal(e, rest) && Overlaps(After(e, rest), job)
  }

  /** A streaming job that none of its stopped monitors can begin a run of. */
  ghost predicate Disarmed(e: Engine, job: Id) {
    Inv(e) && job in e.streaming && !ArmedJob(e, job)
  }

  lemma ArmedBefore(e: Engine, ev: Event, job: Id, t: ThreadId)
    requires MonitorsAgree(e) && job in e.streaming && Enabled(e, ev) && Calm(ev)
    requires t in Step(e, ev).watch.monitors && Step(e, ev).watch.monitors[t] == job && Armed(Step(e, ev), t)
    ensures t in e.watch.monitors && e.watch.monitors[t] == job && Armed(e, t)
  {
    ListedBefore(e, ev, job);
  }

  lemma ListedBefore(e: Engine, ev: Event, job: Id)
    requires MonitorsAgree(e) && job in e.streaming && Enabled(e, ev) && Calm(ev)
    ensures job in Step(e, ev).watch.listed ==> job in e.watch.listed
  {
  }

  lemma StaysDisarmed(e: Engine, ev: Event, job: Id)
    requires Disarmed(e, job) && Enabled(e, ev) && Calm(ev)
    ensures Disarmed(Step(e, ev), job)
  {
    var e' := Step(e, ev);
    assert Inv(e') by { StepKeeps(e, ev); }
    assert job in e'.streaming;
    if ArmedJob(e', job) {
      var t :| t in e'.watch.monitors && e'.watch.monitors[t] == job && Armed(e', t);
      ArmedBefore(e, ev, job, t);
    }
  }

  lemma DisarmedIsApart(e: Engine, job: Id)
    requires Disarmed(e, job)
    ensures job !in e.incremental
  {
    if job in e.incremental { RunIsArmed(e, job); }
  }

  lemma RunIsArmed(e: Engine, job: Id)
    requires OneEach(e.incremental, e.threads, Incremental) && MonitorsAgree(e) && job in e.incremental
    ensures ArmedJob(e, job)
  {
    var t :| t in e.threads && Incremental(e.threads[t]) && e.threads[t].job == job;
    assert Armed(e, t);
  }

  lemma {:induction false} DisarmedNeverOverlaps(e: Engine, events: seq<Event>, job: Id)
    requires Disarmed(e, job) && Legal(e, events) && AllCalm(events)
    ensures !Overlaps(After(e, events), job)
    decreases |events|
  {
    if events == [] {
      DisarmedIsApart(e, job);
    } else {
      assert events[0] in events && forall ev :: ev in events[1..] ==> ev in events;
      StaysDisarmed(e, events[0], job);
      DisarmedNeverOverlaps(Step(e, events[0]), events[1..], job);
    }
  }

  /** Making a job a streaming one, after its monitors were stopped, can lead to a mount start beside an
      incremental run if and only if one of them is in a run, holds a reading, or has yet to read in its
      last iteration while a young listing of the folder is kept. */
  lemma OverlapExactly(e: Engine, job: Id)
    requires Inv(e) && Enabled(e, SetMode(job, true))
    ensures CanOverlap(e, job) <==> ArmedJob(e, job)
  {
    var change := SetMode(job, true);
    var e1 := Step(e, change);
    StepKeeps(e, change);
    assert forall t :: Armed(e1, t) <==> Armed(e, t);
    if ArmedJob(e, job) {
      var t :| t in e.watch.monitors && e.watch.monitors[t] == job && Armed(e, t);
      assert Armed(e1, t);
      var rest := MountBesideRun(e1, job);
      assert OverlapsBy(e1, rest, job);
    } else {
      assert !ArmedJob(e1, job);
      forall rest ensures !OverlapsBy(e1, rest, job) {
        if AllCalm(rest) && Legal(e1, rest) { DisarmedNeverOverlaps(e1, rest, job); }
      }
    }
  }

  /** The active thread of a job comes to its end; nothing else of the job changes. */
  ghost predicate Drains(e: Engine, events: seq<Event>, job: Id) {
    && AllCalm(events) && Legal(e, events)
    && var e' := After(e, events);
       && job !in e'.active && e'.streaming == e.streaming && e'.watch == e.watch && e'.incremental == e.incremental
       && forall t <- e.watch.monitors :: t in e'.threads <==> t in e.threads
  }

  lemma DrainFirst(e: Engine, ev: Event, e1: Engine, rest: seq<Event>, job: Id)
    requires Enabled(e, ev) && Calm(ev) && e1 == Step(e, ev) && Drains(e1, rest, job)
    requires e1.streaming == e.streaming && e1.watch == e.watch && e1.incremental == e.incremental
    requires e1.threads.Keys == e.threads.Keys
    ensures Drains(e, [ev] + rest, job)
  {
    One(e, ev);
    Onward(e, [ev], rest);
  }

  lemma DrainClose(e: Engine, t: ThreadId)
    requires Enabled(e, Close(t)) && Active(e.threads[t]) && t !in e.watch.monitors
    ensures Drains(e, [Close(t)], e.threads[t].job)
  {
    One(e, Close(t));
  }

  lemma DrainRunning(e: Engine, t: ThreadId)
    requires Enabled(e, EndWork(t)) && Active(e.threads[t]) && t !in e.watch.monitors
    ensures Drains(e, [EndWork(t)] + [Close(t)], e.threads[t].job)
  {
    var e1 := Step(e, EndWork(t));
    DrainClose(e1, t);
    DrainFirst(e, EndWork(t), e1, [Close(t)], e.threads[t].job);
  }

  lemma DrainQueued(e: Engine, t: ThreadId) returns (events: seq<Event>)
    requires Enabled(e, Admit(t)) && e.threads[t].kind == FullRun && t !in e.watch.monitors
    ensures Drains(e, events, e.threads[t].job)
  {
    var e1 := Step(e, Admit(t));
    if e1.threads[t].phase == Running {
      DrainRunning(e1, t);
      events := [EndWork(t)] + [Close(t)];
    } else {
      DrainClose(e1, t);
      events := [Close(t)];
    }
    DrainFirst(e, Admit(t), e1, events, e.threads[t].job);
    events := [Admit(t)] + events;
  }

  lemma Drain(e: Engine, job: Id) returns (events: seq<Event>)
    requires ThreadsAgree(e) && MonitorsAgree(e)
    ensures Drains(e, events, job)
  {
    if job !in e.active { return []; }
    var t :| t in e.threads && Active(e.threads[t]) && e.threads[t].job == job;
    if e.threads[t].phase == Queued {
      events := DrainQueued(e, t);
    } else if e.threads[t].phase == Running {
      DrainRunning(e, t);
      events := [EndWork(t)] + [Close(t)];
    } else {
      DrainClose(e, t);
      events := [Close(t)];
    }
  }

  /** From an armed monitor of a streaming job to the overlap. */
  lemma MountBesideRun(e: Engine, job: Id) returns (events: seq<Event>)
    requires Inv(e) && job in e.streaming && ArmedJob(e, job)
    ensures OverlapsBy(e, events, job)
  {
    var t :| t in e.watch.monitors && e.watch.monitors[t] == job && Armed(e, t);
    events := Drain(e, job);
    var e1 := After(e, events);
    RunKeeps(e, events);
    assert Armed(e1, t);
    var begin := RunBegins(e1, job, t);
    var e2 := After(e1, begin);
    var u := Unused(e2.threads.Keys + e2.watch.monitors.Keys);
    var mount := StartMount(job, false, u);
    One(e2, mount);
    Onward(e1, begin, [mount]);
    Onward(e, events, begin + [mount]);
    events := events + (begin + [mount]);
  }

  lemma RunningMonitor(e: Engine, t: ThreadId)
    requires OneEach(e.incremental, e.threads, Incremental) && MonitorsAgree(e) && t in e.watch.monitors
    ensures t in e.threads ==> e.watch.monitors[t] in e.incremental
  {
    if t in e.threads { assert Incremental(e.threads[t]); }
  }

  lemma ProcessesAreRuns(e: Engine, job: Id)
    requires Inv(e)
    ensures job in e.processes ==> job in e.active || job in e.incremental
  {
    if job in e.processes {
      var u :| u in e.threads && Owns(e.threads[u]) && e.threads[u].job == job;
      assert Active(e.threads[u]) || Incremental(e.threads[u]);
    }
  }

  /** An armed monitor is in a run already, or begins one with the reading it holds or takes up. */
  lemma RunBegins(e: Engine, job: Id, t: ThreadId) returns (events: seq<Event>)
    requires Inv(e) && Armed(e, t) && e.watch.monitors[t] == job && job !in e.active
    ensures AllCalm(events) && Legal(e, events)
    ensures var e' := After(e, events); job in e'.incremental && job !in e'.active && e'.streaming == e.streaming
  {
    RunningMonitor(e, t);
    if job in e.incremental { return []; }
    if t in e.watch.holding {
      events := HolderBegins(e, job, t);
    } else {
      var read := Watching(ReadKept(t));
      StepKeeps(e, read);
      One(e, read);
      var begin := HolderBegins(Step(e, read), job, t);
      Onward(e, [read], begin);
      events := [read] + begin;
    }
  }

  lemma HolderBegins(e: Engine, job: Id, t: ThreadId) returns (events: seq<Event>)
    requires Inv(e) && t in e.watch.holding && e.watch.monitors[t] == job && job !in e.active && job !in e.incremental
    ensures AllCalm(events) && Legal(e, events)
    ensures var e' := After(e, events); job in e'.incremental && job !in e'.active && e'.streaming == e.streaming
  {
    RunningMonitor(e, t);
    ProcessesAreRuns(e, job);
    events := [BeginIncremental(job, t)];
    One(e, BeginIncremental(job, t));
  }

  /** The job's only monitor is in its run. */
  const UNDERWAY := Watch(map[], {}, {}, {}, {})

  lemma RunStarts(job: Id) returns (e: Engine)
    ensures var events := [Watching(Start(job, 0)), Watching(Read(0, false)), BeginIncremental(job, 0)];
            Legal(IDLE, events) && After(IDLE, events) == e
    ensures e == IDLE.(watch := UNDERWAY.(monitors := map[0 := job]), incremental := {job},
                       threads := map[0 := Thread(IncrementalRun, job, Running, false)])
  {
    var a, b, c := Watching(Start(job, 0)), Watching(Read(0, false)), BeginIncremental(job, 0);
    One(IDLE, a);
    var e1 := Step(IDLE, a);
    One(e1, b);
    var e2 := Step(e1, b);
    One(e2, c);
    e := Step(e2, c);
    assert e.watch == UNDERWAY.(monitors := map[0 := job]);
    Onward(e1, [b], [c]);
    Onward(IDLE, [a], [b] + [c]);
    assert [a] + ([b] + [c]) == [a, b, c];
  }

  lemma MountStarts(e: Engine, job: Id)
    requires e.watch == UNDERWAY.(monitors := map[0 := job]) && job in e.incremental && e.active == {}
    requires 0 in e.threads && 1 !in e.threads
    ensures var events := [Watching(Stop(0)), SetMode(job, true), StartMount(job, false, 1)];
            Legal(e, events) && Overlaps(After(e, events), job)
  {
    var a, b, c := Watching(Stop(0)), SetMode(job, true), StartMount(job, false, 1);
    One(e, a);
    var e1 := Step(e, a);
    One(e1, b);
    var e2 := Step(e1, b);
    One(e2, c);
    Onward(e1, [b], [c]);
    Onward(e, [a], [b] + [c]);
    assert [a] + ([b] + [c]) == [a, b, c];
  }

  /** The shortest such run: the monitor begins its run, the user makes the job a streaming one, the mount starts. */
  lemma StaleMonitorOverlaps(job: Id)
    ensures var events := [Watching(Start(job, 0)), Watching(Read(0, false)), BeginIncremental(job, 0)] +
                          [Watching(Stop(0)), SetMode(job, true), StartMount(job, false, 1)];
            Legal(IDLE, events) && Overlaps(After(IDLE, events), job)
  {
    var e := RunStarts(job);
    MountStarts(e, job);
    Onward(IDLE, [Watching(Start(job, 0)), Watching(Read(0, false)), BeginIncremental(job, 0)],
           [Watching(Stop(0)), SetMode(job, true), StartMount(job, false, 1)]);
  }

  /** A job whose only monitor was stopped before it could read. */
  function Stopped(job: Id, listed: set<Id>): Engine {
    IDLE.(watch := Watch(map[0 := job], {0}, {0}, {}, listed))
  }

  lemma StopsEarly(job: Id)
    ensures var events := [Watching(Start(job, 0)), Watching(Stop(0))];
            Legal(IDLE, events) && After(IDLE, events) == Stopped(job, {})
  {
    var start, stop := Watching(Start(job, 0)), Watching(Stop(0));
    One(IDLE, start);
    var e1 := Step(IDLE, start);
    One(e1, stop);
    Onward(IDLE, [start], [stop]);
    assert [start] + [stop] == [start, stop];
  }

  lemma OthersList(job: Id)
    ensures var events := [Watching(Start(job, 0)), Watching(Stop(0)), Watching(Listed(job))];
            Legal(IDLE, events) && After(IDLE, events) == Stopped(job, {job})
  {
    var start, stop, listed := Watching(Start(job, 0)), Watching(Stop(0)), Watching(Listed(job));
    StopsEarly(job);
    One(Stopped(job, {}), listed);
    Onward(IDLE, [start, stop], [listed]);
    assert [start, stop] + [listed] == [start, stop, listed];
  }

  /** A monitor that was stopped before it could read: while a young listing of the folder is kept, making
      the job a streaming one can still lead to the overlap; without one it cannot. */
  lemma StoppedMonitorUsesListing(job: Id)
    ensures var start, stop, listed := Watching(Start(job, 0)), Watching(Stop(0)), Watching(Listed(job));
            && Legal(IDLE, [start, stop, listed]) && Legal(IDLE, [start, stop])
            && Enabled(After(IDLE, [start, stop, listed]), SetMode(job, true))
            && Enabled(After(IDLE, [start, stop]), SetMode(job, true))
            && CanOverlap(After(IDLE, [start, stop, listed]), job) && !CanOverlap(After(IDLE, [start, stop]), job)
  {
    StopsEarly(job);
    OthersList(job);
    StoppedIsSound(job, {});
    StoppedIsSound(job, {job});
    assert Armed(Stopped(job, {job}), 0);
    OverlapExactly(Stopped(job, {job}), job);
    OverlapExactly(Stopped(job, {}), job);
  }

  lemma StoppedIsSound(job: Id, listed: set<Id>)
    ensures Inv(Stopped(job, listed)) && Enabled(Stopped(job, listed), SetMode(job, true))
  {
  }
}
