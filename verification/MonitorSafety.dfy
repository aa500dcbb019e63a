/** When the change monitor may transfer, and why a transfer does not come back as a change. */
module MonitorSafety {
  import opened Basics
  import opened MonitorSteps
  import opened MonitorRuns

  // ----- No blind overwrite -----

  /** A two-way transfer touches each path from one side only, and for every upload the provider is
      as remembered: in an answer to this iteration, or in a listing of at most five seconds ago. */
  ghost predicate Guarded(cfg: Settings, e: Event) {
    e.Apply? && cfg.mode == TwoWay ==>
      && e.local.Keys !! e.remote.Keys
      && forall p <- e.local ::
           && e.known
           && (e.reading.Targeted? ==> p in e.reading.states && Lookup(e.remembered, p) == Some(e.reading.states[p]))
           && (e.reading.Full? ==>
                 && e.reading.called - e.reading.listing.stamp <= 5.0
                 && Lookup(e.remembered, p) == Lookup(e.reading.listing.snapshot, p))
  }

  ghost predicate AllGuarded(cfg: Settings, events: seq<Event>) {
    forall e <- events :: Guarded(cfg, e)
  }

  lemma Apart(a: set<Path>, b: set<Path>)
    requires a * b == {}
    ensures a !! b
  {
    forall p ensures !(p in a && p in b) { assert p in a * b <==> p in a && p in b; }
  }

  lemma SettleGuarded(cfg: Settings, s: State, a: Answers, reading: Reading)
    requires reading.Targeted? ==> PendingLocal(s, a).Keys <= reading.states.Keys
    requires reading.Full? ==> reading.called - reading.listing.stamp <= CACHE_SECONDS
    ensures AllGuarded(cfg, SettleEvents(cfg, s, a, reading))
  {
    var pending, newRemote := PendingLocal(s, a), Overlay(s.remote, reading);
    var pendingRemote := PendingRemote(s, newRemote);
    var call := Apply(PermittedLocal(cfg, pending), PermittedRemote(cfg, pendingRemote), a.applySucceeds,
                      s.remoteKnown, s.remote, reading);
    var verdict := Decide(cfg, s.remoteKnown, a, pending, pendingRemote);
    if (verdict == Transfer || verdict == Refuse) && cfg.mode == TwoWay {
      Apart(pending.Keys, pendingRemote.Keys);
      forall p <- pending ensures s.remoteKnown && Lookup(s.remote, p) == Lookup(newRemote, p) {
        assert p !in pendingRemote;
        assert p !in RemoteDiff(s, newRemote);
      }
      assert Guarded(cfg, call);
    }
  }

  lemma ScanIsYoung(listing: Option<Listing>, scan: Scan)
    ensures var r := ScanOf(listing, scan);
            r.Some? ==> r.value.Full? && r.value.called - r.value.listing.stamp <= CACHE_SECONDS
  {
  }

  /** A targeted check asks for every waiting path; a listing is new or at most five seconds old. */
  lemma ReadingIsYoung(s: State, a: Answers)
    requires ReadProvider(s, a).Some?
    ensures var reading := ReadProvider(s, a).value;
            && (reading.Targeted? ==> PendingLocal(s, a).Keys <= reading.states.Keys)
            && (reading.Full? ==> reading.called - reading.listing.stamp <= CACHE_SECONDS)
  {
    ScanIsYoung(s.listing, a.first);
    ScanIsYoung(ListingBetween(s, a), a.second);
  }

  lemma StepGuarded(cfg: Settings, s: State, a: Answers)
    ensures AllGuarded(cfg, Events(cfg, s, a))
  {
    if a.enabled && !a.observed.Rescan? && RemoteDue(s, a) && ReadProvider(s, a).Some? {
      ReadingIsYoung(s, a);
      SettleGuarded(cfg, s, a, ReadProvider(s, a).value);
    }
  }

  // ----- Transfers move exactly what is outstanding -----

  /** The call moves all outstanding changes of the permitted sides, and drops concern forbidden sides only. */
  ghost predicate Exact(cfg: Settings, before: seq<Event>, e: Event) {
    && (e.Apply? ==>
         && e.local.Keys == (if cfg.mode == DownloadOnly then {} else Outstanding(Local, before))
         && e.remote.Keys == (if cfg.mode == UploadOnly then {} else Outstanding(Remote, before)))
    && (e.Dropped? ==> cfg.mode == if e.dropSide == Local then DownloadOnly else UploadOnly)
  }

  ghost predicate AllExact(cfg: Settings, trace: seq<Event>) {
    forall i :: 0 <= i < |trace| ==> Exact(cfg, trace[..i], trace[i])
  }

  lemma ExactExtends(cfg: Settings, trace: seq<Event>, e: Event)
    requires AllExact(cfg, trace) && Exact(cfg, trace, e)
    ensures AllExact(cfg, trace + [e])
  {
    var t := trace + [e];
    forall i | 0 <= i < |t| ensures Exact(cfg, t[..i], t[i]) {
      if i < |trace| { assert t[..i] == trace[..i]; } else { assert t[..i] == trace; }
    }
  }

  lemma OutstandingNext(side: Side, trace: seq<Event>, e: Event)
    ensures Outstanding(side, trace + [e]) == Account(side, Outstanding(side, trace), e)
  {
    assert (trace + [e])[..|trace|] == trace;
  }

  lemma DropsExact(cfg: Settings, trace: seq<Event>, pending: Changes, pendingRemote: Changes)
    requires AllExact(cfg, trace)
    ensures AllExact(cfg, trace + Drops(cfg, pending, pendingRemote))
  {
    if cfg.mode == DownloadOnly {
      ExactExtends(cfg, trace, Dropped(Local, pending.Keys));
    } else if cfg.mode == UploadOnly {
      ExactExtends(cfg, trace, Dropped(Remote, pendingRemote.Keys));
    } else {
      assert trace + [] == trace;
    }
  }

  lemma SettleExact(cfg: Settings, trace: seq<Event>, s: State, a: Answers, reading: Reading)
    requires AllExact(cfg, trace)
    requires Outstanding(Local, trace) == PendingLocal(s, a).Keys
    requires Outstanding(Remote, trace) == PendingRemote(s, Overlay(s.remote, reading)).Keys
    ensures AllExact(cfg, trace + SettleEvents(cfg, s, a, reading))
  {
    var pending, pendingRemote := PendingLocal(s, a), PendingRemote(s, Overlay(s.remote, reading));
    var call := Apply(PermittedLocal(cfg, pending), PermittedRemote(cfg, pendingRemote), a.applySucceeds,
                      s.remoteKnown, s.remote, reading);
    match Decide(cfg, s.remoteKnown, a, pending, pendingRemote)
    case Distrust => ExactExtends(cfg, trace, Reconciled);
    case Conflict => ExactExtends(cfg, trace, Reconciled);
    case Idle => DropsExact(cfg, trace, pending, pendingRemote);
    case Transfer =>
      ExactExtends(cfg, trace, call);
      DropsExact(cfg, trace + [call], pending, pendingRemote);
      assert trace + [call] + Drops(cfg, pending, pendingRemote) ==
          trace + ([call] + Drops(cfg, pending, pendingRemote));
    case Refuse => ExactExtends(cfg, trace, call);
  }

  lemma RescanExact(cfg: Settings, trace: seq<Event>, e: Event)
    requires AllExact(cfg, trace + [e])
    ensures AllExact(cfg, trace + ([e] + [Reconciled]))
  {
    ExactExtends(cfg, trace + [e], Reconciled);
    assert trace + [e] + [Reconciled] == trace + ([e] + [Reconciled]);
  }

  lemma StepExact(cfg: Settings, trace: seq<Event>, s: State, a: Answers)
    requires AllExact(cfg, trace) && Conserved(Run(s, trace))
    ensures AllExact(cfg, trace + Events(cfg, s, a))
  {
    if !a.enabled {
      assert trace + [] == trace;
    } else {
      var r1 := LocalReport(s, a);
      ExactExtends(cfg, trace, r1);
      OutstandingNext(Local, trace, r1);
      OutstandingNext(Remote, trace, r1);
      if a.observed.Rescan? {
        RescanExact(cfg, trace, r1);
      } else if RemoteDue(s, a) && ReadProvider(s, a).Some? {
        ReadStepExact(cfg, trace + [r1], s, a, ReadProvider(s, a).value);
        var r2 := RemoteReport(s, ReadProvider(s, a).value);
        var tail := SettleEvents(cfg, s, a, ReadProvider(s, a).value);
        assert trace + [r1] + [r2] + tail == trace + ([r1] + [r2] + tail);
      }
    }
  }

  lemma ReadStepExact(cfg: Settings, trace: seq<Event>, s: State, a: Answers, reading: Reading)
    requires AllExact(cfg, trace)
    requires Outstanding(Local, trace) == PendingLocal(s, a).Keys && Outstanding(Remote, trace) == s.deferredRemote.Keys
    ensures AllExact(cfg, trace + [RemoteReport(s, reading)] + SettleEvents(cfg, s, a, reading))
  {
    var r2 := RemoteReport(s, reading);
    ExactExtends(cfg, trace, r2);
    OutstandingNext(Local, trace, r2);
    OutstandingNext(Remote, trace, r2);
    SettleExact(cfg, trace + [r2], s, a, reading);
  }

  /** Everything a run keeps: conservation, current deletion flags, guarded and exact transfers. */
  ghost predicate Safe(cfg: Settings, r: Run) {
    Consistent(r.state) && Conserved(r) && AllGuarded(cfg, r.trace) && AllExact(cfg, r.trace)
  }

  lemma StepSafe(cfg: Settings, r: Run, a: Answers)
    requires Safe(cfg, r)
    ensures Safe(cfg, NextRun(cfg, r, a))
  {
    StepConsistent(cfg, r.state, a);
    StepGuarded(cfg, r.state, a);
    StepExact(cfg, r.trace, r.state, a);
    StepConserves(cfg, r.state, a);
    OutstandingExtends(Local, r.trace, Events(cfg, r.state, a));
    OutstandingExtends(Remote, r.trace, Events(cfg, r.state, a));
  }

  /** Every run from a start state is safe. */
  lemma {:induction false} RunSafe(cfg: Settings, r: Run, answers: seq<Answers>)
    requires Safe(cfg, r)
    ensures Safe(cfg, RunFrom(cfg, r, answers))
    decreases |answers|
  {
    if answers != [] {
      StepSafe(cfg, r, answers[0]);
      RunSafe(cfg, NextRun(cfg, r, answers[0]), answers[1..]);
    }
  }

  lemma StartSafe(cfg: Settings, before: Snapshot, after: Snapshot, remote: Option<Snapshot>, now: real, delay: real,
      listing: Option<Listing>)
    ensures Safe(cfg, StartRun(before, after, remote, now, delay, listing))
  {
    var start := StartRun(before, after, remote, now, delay, listing);
    var e := start.trace[0];
    assert start.trace[..|start.trace|-1] == [] && [] + [e] == start.trace;
    assert Outstanding(Local, start.trace) == Account(Local, {}, e);
    assert Outstanding(Remote, start.trace) == Account(Remote, {}, e);
    assert AllExact(cfg, []);
    ExactExtends(cfg, [], e);
  }
}
