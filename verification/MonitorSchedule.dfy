/** When the change monitor asks the provider: backoff after failures, targeted checks and recovery. */
module MonitorSchedule {
  import opened Basics
  import opened MonitorSteps
  import opened MonitorRuns

  /** The backoff table is never left; an empty one is never looked into. */
  ghost predicate Indexed(cfg: Settings, s: State) {
    cfg.remoteBackoff != [] ==> 0 <= s.backoffIndex < |cfg.remoteBackoff|
  }

  lemma FinishIndexed(cfg: Settings, s: State, a: Answers, newRemote: Snapshot, busy: bool)
    ensures Indexed(cfg, Finish(cfg, s, a, newRemote, busy)) || s.backoffIndex + 1 < 0
  {
  }

  lemma SettleIndexed(cfg: Settings, s: State, a: Answers, reading: Reading)
    requires Indexed(cfg, s)
    ensures Indexed(cfg, Settle(cfg, s, a, reading))
  {
    var s1, newRemote := AfterReading(cfg, s, a, reading), Overlay(s.remote, reading);
    var pending, pendingRemote := PendingLocal(s, a), PendingRemote(s, newRemote);
    var busy := pending != map[] || pendingRemote != map[];
    var offered := Offered(cfg, s1, a, s.remoteKnown, pending, pendingRemote, newRemote);
    assert offered.0.backoffIndex == s.backoffIndex;
    FinishIndexed(cfg, offered.0, a, offered.1, busy);
  }

  lemma {:induction false} RunStaysIndexed(cfg: Settings, r: Run, answers: seq<Answers>)
    requires Indexed(cfg, r.state)
    ensures Indexed(cfg, RunFrom(cfg, r, answers).state)
    decreases |answers|
  {
    if answers != [] {
      var a := answers[0];
      if ReadProvider(r.state, a).Some? { SettleIndexed(cfg, r.state, a, ReadProvider(r.state, a).value); }
      assert Indexed(cfg, NextRun(cfg, r, a).state);
      RunStaysIndexed(cfg, NextRun(cfg, r, answers[0]), answers[1..]);
    }
  }

  /** Something was handed to the full reconciliation or transferred. */
  ghost predicate Touches(events: seq<Event>) {
    exists e <- events :: e.Reconciled? || (e.Apply? && e.ok)
  }

  /** Whatever a reconciliation or transfer did is looked at again: once ten seconds have passed, the
      next iteration reads the provider even when nothing changed and no full scan is due. */
  lemma RecoveryFollows(cfg: Settings, s: State, a: Answers, next: Answers)
    requires Touches(Events(cfg, s, a))
    requires next.enabled && !next.observed.Rescan? && next.now >= a.finished + 10.0
    ensures NextState(cfg, s, a).recoveryDue == Some(a.finished + 10.0) && RemoteDue(NextState(cfg, s, a), next)
  {
    if a.enabled && !a.observed.Rescan? && RemoteDue(s, a) && ReadProvider(s, a).Some? {
      var reading := ReadProvider(s, a).value;
      SettleTouches(cfg, s, a, reading);
    }
  }

  lemma SettleTouches(cfg: Settings, s: State, a: Answers, reading: Reading)
    ensures Touches([LocalReport(s, a)] + [RemoteReport(s, reading)] + SettleEvents(cfg, s, a, reading)) ==>
            Settle(cfg, s, a, reading).recoveryDue == Some(a.finished + 10.0)
  {
    var verdict := Decide(cfg, s.remoteKnown, a, PendingLocal(s, a), PendingRemote(s, Overlay(s.remote, reading)));
    if verdict == Idle || verdict == Refuse {
      forall e <- SettleEvents(cfg, s, a, reading) ensures !e.Reconciled? && !(e.Apply? && e.ok) {
      }
    }
  }

  // ----- Failures -----

  /** How long the loop waits for events before it goes on. */
  function WaitTimeout(s: State, now: real): real {
    var due := s.lastRemoteScan + s.remoteDelay;
    Max(0.0, (if s.recoveryDue.Some? then Min(due, s.recoveryDue.value) else due) - now)
  }

  /** The provider is asked in this iteration and fails. */
  predicate Fails(s: State, a: Answers) {
    a.enabled && !a.observed.Rescan? && RemoteDue(s, a) && ReadProvider(s, a).None?
  }

  /** The delay after a failure; it counts from the last full scan that succeeded. */
  function DelayAfterFailure(cfg: Settings, s: State): real {
    Min(300.0, Max(s.remoteDelay * 2.0, cfg.remotePollSeconds))
  }

  /** A failing provider loses no local change and no baseline, and does not count as a scan. */
  lemma FailureKeepsEverything(cfg: Settings, s: State, a: Answers)
    requires Fails(s, a)
    ensures var s' := NextState(cfg, s, a);
            && s'.deferredLocal == PendingLocal(s, a) && s'.deferredRemote == s.deferredRemote
            && s'.remote == s.remote && s'.remoteKnown == s.remoteKnown
            && s'.lastRemoteScan == s.lastRemoteScan && s'.remoteDelay <= 300.0
            && (s.recoveryDue.Some? <==> s'.recoveryDue.Some?)
  {
    Absorbs(s.deferredLocal, Diff(s.local, LocalNow(s, a)));
  }

  /** A failure makes the loop wait before it asks again if and only if the new delay, counted from the
      last full scan that succeeded, is not over when the failure is noticed. */
  lemma FailurePostponesExactly(cfg: Settings, s: State, a: Answers)
    requires Fails(s, a) && cfg.remotePollSeconds > 0.0
    ensures WaitTimeout(NextState(cfg, s, a), a.finished) > 0.0 <==>
            a.finished < s.lastRemoteScan + DelayAfterFailure(cfg, s)
  {
  }

  /** Unless local changes wait, a quiet iteration after the failure asks the provider exactly when
      that delay is over or a recovery look is due. */
  lemma AskedAgainExactly(cfg: Settings, s: State, a: Answers, next: Answers)
    requires Fails(s, a) && PendingLocal(s, a) == map[] && next.observed.Quiet?
    ensures RemoteDue(NextState(cfg, s, a), next) <==>
            || next.now >= s.lastRemoteScan + DelayAfterFailure(cfg, s)
            || (s.recoveryDue.Some? && next.now >= a.finished + DelayAfterFailure(cfg, s))
  {
    FailureKeepsEverything(cfg, s, a);
  }

  /** The provider fails, the kept listing is too old to be served, and nobody renews it. */
  predicate Unanswered(listing: Option<Listing>, scan: Scan) {
    scan.answer.None? && !scan.others.Refresh? && !Serves(listing, scan)
  }

  /** In each iteration the provider is asked without waiting, and fails. */
  ghost predicate AsksAtOnce(cfg: Settings, s: State, answers: seq<Answers>)
    decreases |answers|
  {
    answers != [] ==>
      Fails(s, answers[0]) && WaitTimeout(s, answers[0].now) == 0.0
          && AsksAtOnce(cfg, NextState(cfg, s, answers[0]), answers[1..])
  }

  /** 300 seconds after the last full scan that succeeded the backoff has no effect any more: as long
      as the provider fails, every iteration asks it again at once. */
  lemma {:induction false} RetryStorm(cfg: Settings, s: State, answers: seq<Answers>)
    requires s.remoteDelay <= 300.0
    requires forall a <- answers ::
             a.enabled && !a.observed.Rescan? && Unanswered(s.listing, a.first) && a.now >= s.lastRemoteScan + 300.0
    ensures AsksAtOnce(cfg, s, answers)
    decreases |answers|
  {
    if answers != [] {
      assert answers[0] in answers && FullDue(s, answers[0]);
      FailureKeepsEverything(cfg, s, answers[0]);
      var next := NextState(cfg, s, answers[0]);
      assert next.listing == s.listing || next.listing == None;
      forall a <- answers[1..] ensures Unanswered(next.listing, a.first) { assert a in answers; }
      RetryStorm(cfg, next, answers[1..]);
    }
  }

  /** A failure with the delay already at 300 seconds or more, as in the later steps of a backoff table,
      starts it: the delay becomes shorter and is already over. */
  lemma LongDelaysStorm(cfg: Settings, s: State, a: Answers, answers: seq<Answers>)
    requires Fails(s, a) && FullDue(s, a) && s.remoteDelay >= 300.0
    requires forall a' <- answers ::
             a'.enabled && !a'.observed.Rescan? && Unanswered(ListingAfter(s, a), a'.first) && a'.now >= a.now
    ensures NextState(cfg, s, a).remoteDelay == 300.0 && AsksAtOnce(cfg, NextState(cfg, s, a), answers)
  {
    FailureKeepsEverything(cfg, s, a);
    RetryStorm(cfg, NextState(cfg, s, a), answers);
  }

  // ----- The deadline of the full scan -----

  /** The iteration makes a targeted check. */
  predicate Targets(s: State, a: Answers) {
    a.enabled && !a.observed.Rescan? && TargetedSucceeds(s, a)
  }

  /** The largest jitter that is drawn for a delay. */
  function JitterBound(base: real): real {
    Min(30.0, Max(1.0, base) * 0.25)
  }

  /** A targeted check leaves the time of the last full scan alone and restarts the delay counted from
      it with the first entry of the backoff table, if there is one. */
  lemma TargetedDelay(cfg: Settings, s: State, a: Answers)
    requires Targets(s, a)
    ensures NextState(cfg, s, a).lastRemoteScan == s.lastRemoteScan
    ensures NextState(cfg, s, a).remoteDelay ==
            if cfg.remoteBackoff == [] then s.remoteDelay else cfg.remoteBackoff[0] + a.lastJitter
  {
    var reading := ReadProvider(s, a).value;
    assert s.remoteKnown && PendingLocal(s, a) != map[];
    ConcludeDelay(cfg, AfterReading(cfg, s, a, reading), a, PendingLocal(s, a),
                  PendingRemote(s, Overlay(s.remote, reading)), Overlay(s.remote, reading));
  }

  lemma FinishDelay(cfg: Settings, s1: State, a: Answers, newRemote: Snapshot)
    ensures var s' := Finish(cfg, s1, a, newRemote, true);
            && s'.lastRemoteScan == s1.lastRemoteScan
            && s'.remoteDelay == if cfg.remoteBackoff == [] then s1.remoteDelay else cfg.remoteBackoff[0] + a.lastJitter
  {
  }

  lemma OfferDelay(
    cfg: Settings, s1: State, a: Answers, known: bool, pending: Changes, pendingRemote: Changes, seen: Snapshot)
    ensures var s' := Offered(cfg, s1, a, known, pending, pendingRemote, seen).0;
            s'.lastRemoteScan == s1.lastRemoteScan && s'.remoteDelay == s1.remoteDelay
  {
  }

  lemma ConcludeDelay(
    cfg: Settings, s1: State, a: Answers, pending: Changes, pendingRemote: Changes, newRemote: Snapshot)
    requires pending != map[]
    ensures var s' := Conclude(cfg, s1, a, true, pending, pendingRemote, newRemote);
            && s'.lastRemoteScan == s1.lastRemoteScan
            && s'.remoteDelay == if cfg.remoteBackoff == [] then s1.remoteDelay else cfg.remoteBackoff[0] + a.lastJitter
  {
    var offered := Offered(cfg, s1, a, true, pending, pendingRemote, newRemote);
    OfferDelay(cfg, s1, a, true, pending, pendingRemote, newRemote);
    FinishDelay(cfg, offered.0, a, offered.1);
  }

  function DeadlineAfter(cfg: Settings, s: State, a: Answers): real {
    NextState(cfg, s, a).lastRemoteScan + NextState(cfg, s, a).remoteDelay
  }

  lemma JitterDeadline(cfg: Settings, s: State, a: Answers, jitter: real)
    requires Targets(s, a)
    ensures DeadlineAfter(cfg, s, a.(lastJitter := jitter)) ==
            s.lastRemoteScan + if cfg.remoteBackoff == [] then s.remoteDelay else cfg.remoteBackoff[0] + jitter
  {
    JitterIsLate(s, a, jitter);
    TargetedDelay(cfg, s, a.(lastJitter := jitter));
  }

  /** The jitter is drawn after the provider was read. */
  lemma JitterIsLate(s: State, a: Answers, jitter: real)
    ensures Targets(s, a.(lastJitter := jitter)) <==> Targets(s, a)
  {
    assert PendingLocal(s, a.(lastJitter := jitter)) == PendingLocal(s, a);
  }

  /** Whatever jitter is drawn, the full scan stays due at the same time. */
  ghost predicate DeadlineKept(cfg: Settings, s: State, a: Answers) {
    forall jitter: real :: 0.0 <= jitter <= JitterBound(BaseDelay(cfg)) ==>
      DeadlineAfter(cfg, s, a.(lastJitter := jitter)) == s.lastRemoteScan + s.remoteDelay
  }

  /** A targeted check keeps the deadline if and only if there is no backoff table. */
  lemma TargetedDeadline(cfg: Settings, s: State, a: Answers)
    requires Targets(s, a)
    ensures DeadlineKept(cfg, s, a) <==> cfg.remoteBackoff == []
  {
    forall jitter: real
      ensures DeadlineAfter(cfg, s, a.(lastJitter := jitter)) ==
              s.lastRemoteScan + if cfg.remoteBackoff == [] then s.remoteDelay else cfg.remoteBackoff[0] + jitter
    {
      JitterDeadline(cfg, s, a, jitter);
    }
    var least, most := 0.0, JitterBound(BaseDelay(cfg));
    assert DeadlineKept(cfg, s, a) ==>
      DeadlineAfter(cfg, s, a.(lastJitter := least)) == DeadlineAfter(cfg, s, a.(lastJitter := most));
  }

  /** A saved file that the provider has asks for a targeted check. */
  lemma SavedFileTargets(s: State, a: Answers, p: Path, saved: FileState)
    requires a.enabled && a.observed == Touched(map[p := Some(saved)]) && p in a.isFile && p in a.pathStates
    requires s.deferredLocal == map[] && p in s.local && s.local[p] != saved && s.remoteKnown && !FullDue(s, a)
    ensures Targets(s, a)
  {
    var pending := PendingLocal(s, a);
    assert Lookup(LocalNow(s, a), p) == Some(saved);
    forall q ensures q in pending <==> q == p { assert q != p ==> Lookup(LocalNow(s, a), q) == Lookup(s.local, q); }
    assert !pending[p] && WantsTargeted(s, a) && pending.Keys <= a.pathStates.Keys;
  }

  /** One saved file while the delay is at 300 seconds, and the full scan is due 240 seconds earlier. */
  lemma DeadlineMoves(before: FileState, saved: FileState)
    requires before != saved
    ensures var cfg := Settings(TwoWay, [60.0, 300.0], 30.0);
            var s := State(map["f" := before], map["f" := before], map[], map[], true, 0.0, 300.0, None, 1, None);
            var scan := Scan(Leave, 10.0, None, 0.0);
            var a := Answers(true, Touched(map["f" := Some(saved)]), {"f"}, map["f" := before], scan, scan, true,
                             map["f" := saved], {}, map[], 10.0, 10.0, 11.0, 0.0, 0.0);
            Targets(s, a) && s.lastRemoteScan + s.remoteDelay == 300.0 && DeadlineAfter(cfg, s, a) == 60.0
  {
    var cfg := Settings(TwoWay, [60.0, 300.0], 30.0);
    var s := State(map["f" := before], map["f" := before], map[], map[], true, 0.0, 300.0, None, 1, None);
    var scan := Scan(Leave, 10.0, None, 0.0);
    var a := Answers(true, Touched(map["f" := Some(saved)]), {"f"}, map["f" := before], scan, scan, true,
                     map["f" := saved], {}, map[], 10.0, 10.0, 11.0, 0.0, 0.0);
    SavedFileTargets(s, a, "f", saved);
    TargetedDelay(cfg, s, a);
  }

  /** The provider is only asked by targeted checks, and the jitter is drawn for the first delay. */
  ghost predicate OnlyTargets(cfg: Settings, s: State, answers: seq<Answers>)
    decreases |answers|
  {
    answers != [] ==>
      var a := answers[0];
      && (a.enabled && !a.observed.Rescan? && RemoteDue(s, a) ==>
         Targets(s, a) && 0.0 <= a.lastJitter <= JitterBound(BaseDelay(cfg)))
      && OnlyTargets(cfg, NextState(cfg, s, a), answers[1..])
  }

  /** However many targeted checks there are, the full scan stays due at the old time or at the first
      delay plus a jitter after the last full scan: they cannot push it further. */
  lemma {:induction false} TargetsCannotPostpone(cfg: Settings, r: Run, answers: seq<Answers>)
    requires OnlyTargets(cfg, r.state, answers)
    ensures var end := RunFrom(cfg, r, answers).state;
            && end.lastRemoteScan == r.state.lastRemoteScan
            && (end.remoteDelay == r.state.remoteDelay
               || BaseDelay(cfg) <= end.remoteDelay <= BaseDelay(cfg) + JitterBound(BaseDelay(cfg)))
    decreases |answers|
  {
    if answers != [] {
      var a := answers[0];
      if Targets(r.state, a) { TargetedDelay(cfg, r.state, a); }
      TargetsCannotPostpone(cfg, NextRun(cfg, r, a), answers[1..]);
    }
  }
}
