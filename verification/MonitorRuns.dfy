/** What every run of the change monitor keeps: conservation of changes, no blind overwrite, no echo. */
module MonitorRuns {
  import opened Basics
  import opened MonitorSteps

  datatype Run = Run(state: State, trace: seq<Event>)

  function NextRun(cfg: Settings, r: Run, a: Answers): Run {
    Run(NextState(cfg, r.state, a), r.trace + Events(cfg, r.state, a))
  }

  /** A whole run from a start state; its trace opens with the startup difference. */
  function RunFrom(cfg: Settings, r: Run, answers: seq<Answers>): Run
    decreases |answers|
  {
    if answers == [] then r else RunFrom(cfg, NextRun(cfg, r, answers[0]), answers[1..])
  }

  function StartRun(before: Snapshot, after: Snapshot, remote: Option<Snapshot>, now: real, delay: real,
      listing: Option<Listing>): Run {
    Run(Start(before, after, remote, now, delay, listing), [Reported(Local, Diff(before, after).Keys)])
  }

  // ----- Accounting -----

  /** What one event leaves of the reported, unsettled paths of a side. */
  function Account(side: Side, open: set<Path>, e: Event): set<Path> {
    match e
    case Reported(s, paths) => if s == side then open + paths else open
    case Reconciled => {}
    case Apply(local, remote, ok, _, _, _) =>
      if ok then open - (if side == Local then local.Keys else remote.Keys) else open
    case Dropped(s, paths) => if s == side then open - paths else open
  }

  /** The paths of a side reported by a diff and not applied, reconciled or dropped since. */
  function Outstanding(side: Side, trace: seq<Event>): set<Path> {
    if trace == [] then {} else Account(side, Outstanding(side, trace[..|trace|-1]), trace[|trace|-1])
  }

  /** Events continuing an account. */
  function AccountAll(side: Side, open: set<Path>, events: seq<Event>): set<Path>
    decreases |events|
  {
    if events == [] then open else AccountAll(side, Account(side, open, events[0]), events[1..])
  }

  lemma {:induction false} OutstandingExtends(side: Side, trace: seq<Event>, events: seq<Event>)
    ensures Outstanding(side, trace + events) == AccountAll(side, Outstanding(side, trace), events)
    decreases |events|
  {
    if events == [] {
      assert trace + events == trace;
    } else {
      var t := trace + [events[0]];
      assert t[..|t|-1] == trace;
      OutstandingExtends(side, t, events[1..]);
      assert t + events[1..] == trace + events;
    }
  }

  // ----- What every state keeps -----

  ghost predicate FlagsAgree(deferred: Changes, current: Snapshot) {
    forall p <- deferred :: deferred[p] <==> p !in current
  }

  ghost predicate Consistent(s: State) {
    && FlagsAgree(s.deferredLocal, s.local)
    && FlagsAgree(s.deferredRemote, s.remote)
    && (!s.remoteKnown ==> s.deferredRemote == map[])
  }

  lemma OverlayFlags(deferred: Changes, previous: Snapshot, current: Snapshot)
    requires FlagsAgree(deferred, previous)
    ensures FlagsAgree(deferred + Diff(previous, current), current)
  {
    forall p <- deferred + Diff(previous, current)
      ensures (deferred + Diff(previous, current))[p] <==> p !in current
    {
      if p !in Diff(previous, current) { assert Lookup(previous, p) == Lookup(current, p); }
    }
  }

  /** Only a refused transfer defers anything. */
  lemma SettleDeferred(cfg: Settings, s: State, a: Answers, reading: Reading)
    ensures var pending, pendingRemote := PendingLocal(s, a), PendingRemote(s, Overlay(s.remote, reading));
            var s' := Settle(cfg, s, a, reading);
            if Decide(cfg, s.remoteKnown, a, pending, pendingRemote) == Refuse then
              && s'.deferredLocal == pending && s'.deferredRemote == pendingRemote && s'.remoteKnown
              && s'.local == LocalNow(s, a) && s'.remote == Overlay(s.remote, reading)
            else s'.deferredLocal == map[] && s'.deferredRemote == map[]
  {
    Absorbs(s.deferredLocal, Diff(s.local, LocalNow(s, a)));
    Absorbs(s.deferredRemote, RemoteDiff(s, Overlay(s.remote, reading)));
  }

  /** Which snapshots a settled iteration leaves. */
  lemma SettleSnapshots(cfg: Settings, s: State, a: Answers, reading: Reading)
    ensures var pending, newRemote := PendingLocal(s, a), Overlay(s.remote, reading);
            var pendingRemote := PendingRemote(s, newRemote);
            var uploads, downloads := PermittedLocal(cfg, pending), PermittedRemote(cfg, pendingRemote);
            var s' := Settle(cfg, s, a, reading);
            if Decide(cfg, s.remoteKnown, a, pending, pendingRemote) == Transfer then
              && s'.local == AfterDownload(LocalNow(s, a), downloads, a)
              && s'.remote == AfterUpload(newRemote, uploads, a)
              && s'.remoteKnown == RefreshSucceeds(a, uploads)
            else s'.local == LocalNow(s, a) && s'.remote == newRemote && s'.remoteKnown
  {
  }

  lemma Absorbs(deferred: Changes, changes: Changes)
    ensures deferred + (deferred + changes) == deferred + changes
  {
  }

  lemma SettleConsistent(cfg: Settings, s: State, a: Answers, reading: Reading)
    requires Consistent(s)
    ensures Consistent(Settle(cfg, s, a, reading))
  {
    SettleDeferred(cfg, s, a, reading);
    OverlayFlags(s.deferredLocal, s.local, LocalNow(s, a));
    if s.remoteKnown { OverlayFlags(s.deferredRemote, s.remote, Overlay(s.remote, reading)); }
  }

  lemma StepConsistent(cfg: Settings, s: State, a: Answers)
    requires Consistent(s)
    ensures Consistent(NextState(cfg, s, a))
  {
    OverlayFlags(s.deferredLocal, s.local, LocalNow(s, a));
    if a.enabled && !a.observed.Rescan? {
      if !RemoteDue(s, a) {
        assert s.deferredLocal.Keys <= PendingLocal(s, a).Keys;
      } else if ReadProvider(s, a).Some? {
        SettleConsistent(cfg, s, a, ReadProvider(s, a).value);
      } else {
        Absorbs(s.deferredLocal, Diff(s.local, LocalNow(s, a)));
      }
    }
  }

  // ----- Conservation -----

  lemma {:induction false} AccountConcat(side: Side, open: set<Path>, xs: seq<Event>, ys: seq<Event>)
    ensures AccountAll(side, open, xs + ys) == AccountAll(side, AccountAll(side, open, xs), ys)
    decreases |xs|
  {
    if xs == [] {
      assert xs + ys == ys;
    } else {
      assert (xs + ys)[1..] == xs[1..] + ys;
      AccountConcat(side, Account(side, open, xs[0]), xs[1..], ys);
    }
  }

  lemma AccountOne(side: Side, open: set<Path>, e: Event)
    ensures AccountAll(side, open, [e]) == Account(side, open, e)
  {
    assert [e][1..] == [];
  }

  /** Settling leaves open exactly what it defers. */
  lemma SettleConserves(cfg: Settings, s: State, a: Answers, reading: Reading)
    ensures var pendingRemote := PendingRemote(s, Overlay(s.remote, reading));
            var events, s' := SettleEvents(cfg, s, a, reading), Settle(cfg, s, a, reading);
            && AccountAll(Local, PendingLocal(s, a).Keys, events) == s'.deferredLocal.Keys
            && AccountAll(Remote, pendingRemote.Keys, events) == s'.deferredRemote.Keys
  {
    SettleDeferred(cfg, s, a, reading);
    SettleCloses(cfg, s, a, reading);
  }

  /** Unless the transfer was refused, nothing stays open. */
  lemma SettleCloses(cfg: Settings, s: State, a: Answers, reading: Reading)
    ensures var pending, pendingRemote := PendingLocal(s, a), PendingRemote(s, Overlay(s.remote, reading));
            var events, refused := SettleEvents(cfg, s, a, reading),
              Decide(cfg, s.remoteKnown, a, pending, pendingRemote) == Refuse;
            && AccountAll(Local, pending.Keys, events) == (if refused then pending.Keys else {})
            && AccountAll(Remote, pendingRemote.Keys, events) == (if refused then pendingRemote.Keys else {})
  {
    var pending, pendingRemote := PendingLocal(s, a), PendingRemote(s, Overlay(s.remote, reading));
    var call := Apply(PermittedLocal(cfg, pending), PermittedRemote(cfg, pendingRemote), a.applySucceeds,
                      s.remoteKnown, s.remote, reading);
    match Decide(cfg, s.remoteKnown, a, pending, pendingRemote)
    case Distrust => OneCloses(pending.Keys, pendingRemote.Keys, Reconciled);
    case Conflict => OneCloses(pending.Keys, pendingRemote.Keys, Reconciled);
    case Idle => DropsClose(cfg, pending, pendingRemote, pending.Keys, pendingRemote.Keys);
    case Transfer => TransferCloses(cfg, pending, pendingRemote, call);
    case Refuse => OneCloses(pending.Keys, pendingRemote.Keys, call);
  }

  lemma OneCloses(openLocal: set<Path>, openRemote: set<Path>, e: Event)
    ensures AccountAll(Local, openLocal, [e]) == Account(Local, openLocal, e)
    ensures AccountAll(Remote, openRemote, [e]) == Account(Remote, openRemote, e)
  {
    AccountOne(Local, openLocal, e);
    AccountOne(Remote, openRemote, e);
  }

  /** A transfer and what the mode drops leave nothing open. */
  lemma TransferCloses(cfg: Settings, pending: Changes, pendingRemote: Changes, call: Event)
    requires call.Apply? && call.ok
    requires call.local == PermittedLocal(cfg, pending) && call.remote == PermittedRemote(cfg, pendingRemote)
    ensures AccountAll(Local, pending.Keys, [call] + Drops(cfg, pending, pendingRemote)) == {}
    ensures AccountAll(Remote, pendingRemote.Keys, [call] + Drops(cfg, pending, pendingRemote)) == {}
  {
    OneCloses(pending.Keys, pendingRemote.Keys, call);
    AccountConcat(Local, pending.Keys, [call], Drops(cfg, pending, pendingRemote));
    AccountConcat(Remote, pendingRemote.Keys, [call], Drops(cfg, pending, pendingRemote));
    DropsClose(cfg, pending, pendingRemote, Account(Local, pending.Keys, call),
        Account(Remote, pendingRemote.Keys, call));
  }

  lemma DropsClose(cfg: Settings, pending: Changes, pendingRemote: Changes, openLocal: set<Path>, openRemote: set<Path>)
    ensures var drops := Drops(cfg, pending, pendingRemote);
            && AccountAll(Local, openLocal, drops) ==
               (if cfg.mode == DownloadOnly then openLocal - pending.Keys else openLocal)
            && AccountAll(Remote, openRemote, drops) ==
               (if cfg.mode == UploadOnly then openRemote - pendingRemote.Keys else openRemote)
  {
    if cfg.mode == DownloadOnly {
      AccountOne(Local, openLocal, Dropped(Local, pending.Keys));
      AccountOne(Remote, openRemote, Dropped(Local, pending.Keys));
    } else if cfg.mode == UploadOnly {
      AccountOne(Local, openLocal, Dropped(Remote, pendingRemote.Keys));
      AccountOne(Remote, openRemote, Dropped(Remote, pendingRemote.Keys));
    }
  }

  /** Exactly the outstanding paths are deferred. */
  ghost predicate Conserved(r: Run) {
    && Outstanding(Local, r.trace) == r.state.deferredLocal.Keys
    && Outstanding(Remote, r.trace) == r.state.deferredRemote.Keys
  }

  /** The local report opens what is pending. */
  lemma ReportOpens(s: State, a: Answers)
    ensures AccountAll(Local, s.deferredLocal.Keys, [LocalReport(s, a)]) == PendingLocal(s, a).Keys
    ensures AccountAll(Remote, s.deferredRemote.Keys, [LocalReport(s, a)]) == s.deferredRemote.Keys
  {
    OneCloses(s.deferredLocal.Keys, s.deferredRemote.Keys, LocalReport(s, a));
  }

  /** The events of an iteration leave open exactly what it defers. */
  ghost predicate ConservedBy(cfg: Settings, s: State, a: Answers) {
    && AccountAll(Local, s.deferredLocal.Keys, Events(cfg, s, a)) == NextState(cfg, s, a).deferredLocal.Keys
    && AccountAll(Remote, s.deferredRemote.Keys, Events(cfg, s, a)) == NextState(cfg, s, a).deferredRemote.Keys
  }

  lemma RescanConserves(cfg: Settings, s: State, a: Answers)
    requires a.enabled && a.observed.Rescan?
    ensures ConservedBy(cfg, s, a)
  {
    ReportOpens(s, a);
    AccountConcat(Local, s.deferredLocal.Keys, [LocalReport(s, a)], [Reconciled]);
    AccountConcat(Remote, s.deferredRemote.Keys, [LocalReport(s, a)], [Reconciled]);
    OneCloses(PendingLocal(s, a).Keys, s.deferredRemote.Keys, Reconciled);
  }

  lemma UnreadConserves(cfg: Settings, s: State, a: Answers)
    requires a.enabled && !a.observed.Rescan? && (!RemoteDue(s, a) || ReadProvider(s, a).None?)
    ensures ConservedBy(cfg, s, a)
  {
    ReportOpens(s, a);
    assert s.deferredLocal.Keys <= PendingLocal(s, a).Keys;
    Absorbs(s.deferredLocal, Diff(s.local, LocalNow(s, a)));
  }

  lemma ReadConserves(cfg: Settings, s: State, a: Answers)
    requires a.enabled && !a.observed.Rescan? && RemoteDue(s, a) && ReadProvider(s, a).Some?
    ensures ConservedBy(cfg, s, a)
  {
    SettleStepConserves(cfg, s, a, ReadProvider(s, a).value, LocalReport(s, a));
  }

  lemma StepConserves(cfg: Settings, s: State, a: Answers)
    ensures ConservedBy(cfg, s, a)
  {
    if a.enabled {
      if a.observed.Rescan? {
        RescanConserves(cfg, s, a);
      } else if RemoteDue(s, a) && ReadProvider(s, a).Some? {
        ReadConserves(cfg, s, a);
      } else {
        UnreadConserves(cfg, s, a);
      }
    }
  }

  lemma SettleStepConserves(cfg: Settings, s: State, a: Answers, reading: Reading, r1: Event)
    requires r1 == LocalReport(s, a)
    ensures var events := [r1] + [RemoteReport(s, reading)] + SettleEvents(cfg, s, a, reading);
            && AccountAll(Local, s.deferredLocal.Keys, events) == Settle(cfg, s, a, reading).deferredLocal.Keys
            && AccountAll(Remote, s.deferredRemote.Keys, events) == Settle(cfg, s, a, reading).deferredRemote.Keys
  {
    var r2 := RemoteReport(s, reading);
    var tail := SettleEvents(cfg, s, a, reading);
    var openLocal, openRemote := s.deferredLocal.Keys, s.deferredRemote.Keys;
    AccountConcat(Local, openLocal, [r1] + [r2], tail);
    AccountConcat(Local, openLocal, [r1], [r2]);
    AccountOne(Local, openLocal, r1);
    AccountOne(Local, PendingLocal(s, a).Keys, r2);
    AccountConcat(Remote, openRemote, [r1] + [r2], tail);
    AccountConcat(Remote, openRemote, [r1], [r2]);
    AccountOne(Remote, openRemote, r1);
    AccountOne(Remote, openRemote, r2);
    assert Account(Local, openLocal, r1) == PendingLocal(s, a).Keys;
    assert Account(Remote, openRemote, r2) == PendingRemote(s, Overlay(s.remote, reading)).Keys;
    SettleConserves(cfg, s, a, reading);
  }
}
