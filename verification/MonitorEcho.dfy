/** What comes back: whether a transferred path that nobody touches is reported again. Listings of the
    provider are kept for five seconds, and an old one can show what was there before a transfer. */
module MonitorEcho {
  import opened Basics
  import opened MonitorSteps
  import opened MonitorRuns
  import opened MonitorSafety
  import opened MonitorSchedule

  // ----- Untouched paths -----

  /** Nothing about p is waiting, and both remembered states agree with the world:
      the local file is l, the provider's is w. */
  ghost predicate Settled(s: State, p: Path, l: Option<FileState>, w: Option<FileState>) {
    && p !in s.deferredLocal && p !in s.deferredRemote
    && Lookup(s.local, p) == l
    && (s.remoteKnown ==> Lookup(s.remote, p) == w)
  }

  /** Whatever is asked about p in this iteration is answered l locally and w at the provider. What a
      kept listing shows is another matter. */
  ghost predicate Untouched(a: Answers, p: Path, l: Option<FileState>, w: Option<FileState>) {
    && (a.observed.Rescan? ==> Lookup(a.observed.snapshot, p) == l)
    && (a.observed.Polled? ==> Lookup(a.observed.snapshot, p) == l)
    && (a.observed.Touched? && p in a.observed.states ==> a.observed.states[p] == l)
    && (p in a.pathStates ==> Some(a.pathStates[p]) == w)
    && (a.first.answer.Some? ==> Lookup(a.first.answer.value, p) == w)
    && (a.second.answer.Some? ==> Lookup(a.second.answer.value, p) == w)
  }

  /** The reading shows p as w, if it shows p at all. */
  predicate Shows(reading: Reading, p: Path, w: Option<FileState>) {
    match reading
    case Targeted(states) => p in states ==> Some(states[p]) == w
    case Full(listing, _) => Lookup(listing.snapshot, p) == w
  }

  predicate Reads(s: State, a: Answers) {
    a.enabled && !a.observed.Rescan? && RemoteDue(s, a) && ReadProvider(s, a).Some?
  }

  /** If the iteration reads the provider, it sees p as w. */
  predicate Sees(s: State, a: Answers, p: Path, w: Option<FileState>) {
    Reads(s, a) ==> Shows(ReadProvider(s, a).value, p, w)
  }

  ghost predicate Mentions(e: Event, p: Path) {
    match e
    case Reported(_, paths) => p in paths
    case Reconciled => false
    case Apply(local, remote, _, _, _, _) => p in local || p in remote
    case Dropped(_, paths) => p in paths
  }

  lemma SettledLocal(s: State, a: Answers, p: Path, l: Option<FileState>, w: Option<FileState>)
    requires Settled(s, p, l, w) && Untouched(a, p, l, w)
    ensures Lookup(LocalNow(s, a), p) == l && p !in PendingLocal(s, a) && p !in Diff(s.local, LocalNow(s, a))
  {
  }

  /** Only a kept listing can show an untouched path otherwise. */
  lemma ScanShows(listing: Option<Listing>, scan: Scan, p: Path, w: Option<FileState>)
    requires scan.answer.Some? ==> Lookup(scan.answer.value, p) == w
    ensures var r := ScanOf(listing, scan);
            r.Some? && !Shows(r.value, p, w) ==> Serves(listing, scan) && r.value.listing == Kept(listing, scan).value
  {
  }

  lemma SettledReading(s: State, a: Answers, p: Path, l: Option<FileState>, w: Option<FileState>)
    requires Settled(s, p, l, w) && Untouched(a, p, l, w) && ReadProvider(s, a).Some?
    ensures var newRemote := Overlay(s.remote, ReadProvider(s, a).value);
            && (s.remoteKnown ==> (p in RemoteDiff(s, newRemote) <==> !Shows(ReadProvider(s, a).value, p, w)))
            && (Shows(ReadProvider(s, a).value, p, w) ==>
                  Lookup(newRemote, p) == w && p !in PendingRemote(s, newRemote) && p !in RemoteDiff(s, newRemote))
  {
    SettledLocal(s, a, p, l, w);
  }

  /** Settling writes no other state than the reading's and those of the transferred paths. */
  lemma SettleLeaves(cfg: Settings, s: State, a: Answers, reading: Reading, p: Path)
    requires p !in PendingLocal(s, a) && p !in PendingRemote(s, Overlay(s.remote, reading))
    ensures Lookup(Settle(cfg, s, a, reading).local, p) == Lookup(LocalNow(s, a), p)
    ensures Lookup(Settle(cfg, s, a, reading).remote, p) == Lookup(Overlay(s.remote, reading), p)
  {
    var newRemote := Overlay(s.remote, reading);
    SettleSnapshots(cfg, s, a, reading);
    TransferLeaves(LocalNow(s, a), newRemote, PermittedLocal(cfg, PendingLocal(s, a)),
                   PermittedRemote(cfg, PendingRemote(s, newRemote)), a, p);
  }

  lemma TransferLeaves(local: Snapshot, newRemote: Snapshot, uploads: Changes, downloads: Changes, a: Answers, p: Path)
    requires p !in uploads && p !in downloads
    ensures Lookup(AfterUpload(newRemote, uploads, a), p) == Lookup(newRemote, p)
    ensures Lookup(AfterDownload(local, downloads, a), p) == Lookup(local, p)
  {
  }

  lemma SettleSilent(cfg: Settings, s: State, a: Answers, reading: Reading, p: Path)
    requires p !in PendingLocal(s, a) && p !in PendingRemote(s, Overlay(s.remote, reading))
    ensures forall e <- SettleEvents(cfg, s, a, reading) :: !Mentions(e, p)
  {
    var pending, pendingRemote := PendingLocal(s, a), PendingRemote(s, Overlay(s.remote, reading));
    assert forall e <- Drops(cfg, pending, pendingRemote) :: !Mentions(e, p);
  }

  lemma SettledStays(cfg: Settings, s: State, a: Answers, p: Path, l: Option<FileState>, w: Option<FileState>,
      reading: Reading)
    requires p !in PendingLocal(s, a) && Lookup(LocalNow(s, a), p) == l
    requires Lookup(Overlay(s.remote, reading), p) == w && p !in PendingRemote(s, Overlay(s.remote, reading))
    ensures Settled(Settle(cfg, s, a, reading), p, l, w)
    ensures forall e <- SettleEvents(cfg, s, a, reading) :: !Mentions(e, p)
  {
    SettleDeferred(cfg, s, a, reading);
    SettleLeaves(cfg, s, a, reading, p);
    SettleSilent(cfg, s, a, reading, p);
  }

  /** A path nobody touches is not reported, transferred or deferred in an iteration that sees it as it is. */
  lemma StepQuiet(cfg: Settings, s: State, a: Answers, p: Path, l: Option<FileState>, w: Option<FileState>)
    requires Settled(s, p, l, w) && Untouched(a, p, l, w) && Sees(s, a, p, w)
    ensures Settled(NextState(cfg, s, a), p, l, w)
    ensures forall e <- Events(cfg, s, a) :: !Mentions(e, p)
  {
    if Reads(s, a) { QuietWhenRead(cfg, s, a, p, l, w); } else { QuietUnread(cfg, s, a, p, l, w); }
  }

  lemma QuietUnread(cfg: Settings, s: State, a: Answers, p: Path, l: Option<FileState>, w: Option<FileState>)
    requires Settled(s, p, l, w) && Untouched(a, p, l, w) && !Reads(s, a)
    ensures Settled(NextState(cfg, s, a), p, l, w)
    ensures forall e <- Events(cfg, s, a) :: !Mentions(e, p)
  {
    SettledLocal(s, a, p, l, w);
    QuietStates(cfg, s, a, p);
    assert forall e <- Events(cfg, s, a) :: e == LocalReport(s, a) || e == Reconciled;
  }

  /** Without a reading the provider side stays as remembered, and no path is deferred that is not pending. */
  ghost predicate NothingRead(s: State, a: Answers, s': State, p: Path) {
    && (s'.local == LocalNow(s, a) || (!a.enabled && s'.local == s.local))
    && s'.remote == s.remote && s'.remoteKnown == s.remoteKnown
    && (p !in PendingLocal(s, a) ==> p !in s'.deferredLocal)
    && (p !in s.deferredRemote ==> p !in s'.deferredRemote)
  }

  lemma PutOffReadsNothing(cfg: Settings, s: State, a: Answers, listing: Option<Listing>, p: Path)
    ensures NothingRead(s, a, PutOff(cfg, s, a).(listing := listing), p)
  {
  }

  lemma QuietStates(cfg: Settings, s: State, a: Answers, p: Path)
    requires !Reads(s, a)
    ensures NothingRead(s, a, NextState(cfg, s, a), p)
  {
    if a.enabled && !a.observed.Rescan? && RemoteDue(s, a) {
      assert ReadProvider(s, a).None?;
      PutOffReadsNothing(cfg, s, a, ListingAfter(s, a), p);
      assert NextState(cfg, s, a) == PutOff(cfg, s, a).(listing := ListingAfter(s, a));
    }
  }

  lemma QuietWhenRead(cfg: Settings, s: State, a: Answers, p: Path, l: Option<FileState>, w: Option<FileState>)
    requires Settled(s, p, l, w) && Untouched(a, p, l, w) && Reads(s, a) && Sees(s, a, p, w)
    ensures Settled(NextState(cfg, s, a), p, l, w)
    ensures forall e <- Events(cfg, s, a) :: !Mentions(e, p)
  {
    var reading := ReadProvider(s, a).value;
    SettledLocal(s, a, p, l, w);
    SettledReading(s, a, p, l, w);
    SettledStays(cfg, s, a, p, l, w, reading);
    assert Events(cfg, s, a) == [LocalReport(s, a)] + [RemoteReport(s, reading)] + SettleEvents(cfg, s, a, reading);
  }

  /** The exact condition for one iteration: with a known baseline an untouched path is mentioned if and
      only if the iteration is served a kept listing that shows it otherwise. */
  lemma MentionedExactly(cfg: Settings, s: State, a: Answers, p: Path, l: Option<FileState>, w: Option<FileState>)
    requires Settled(s, p, l, w) && Untouched(a, p, l, w) && s.remoteKnown
    ensures (exists e <- Events(cfg, s, a) :: Mentions(e, p)) <==> !Sees(s, a, p, w)
    ensures !Sees(s, a, p, w) ==>
              && ReadProvider(s, a).value.Full?
              && (ListingBetween(s, a) == Some(ReadProvider(s, a).value.listing)
                  || Kept(ListingBetween(s, a), a.second) == Some(ReadProvider(s, a).value.listing))
  {
    if Sees(s, a, p, w) {
      StepQuiet(cfg, s, a, p, l, w);
    } else {
      StaleReports(cfg, s, a, p, l, w);
      StaleIsKept(s, a, p, l, w);
    }
  }

  lemma StaleReports(cfg: Settings, s: State, a: Answers, p: Path, l: Option<FileState>, w: Option<FileState>)
    requires Settled(s, p, l, w) && Untouched(a, p, l, w) && s.remoteKnown && !Sees(s, a, p, w)
    ensures exists e <- Events(cfg, s, a) :: Mentions(e, p)
  {
    var report := RemoteReport(s, ReadProvider(s, a).value);
    SettledReading(s, a, p, l, w);
    assert Events(cfg, s, a)[1] == report && report in Events(cfg, s, a) && Mentions(report, p);
  }

  lemma StaleIsKept(s: State, a: Answers, p: Path, l: Option<FileState>, w: Option<FileState>)
    requires Untouched(a, p, l, w) && !Sees(s, a, p, w)
    ensures var reading := ReadProvider(s, a).value;
            && reading.Full?
            && (ListingBetween(s, a) == Some(reading.listing)
               || Kept(ListingBetween(s, a), a.second) == Some(reading.listing))
  {
    ScanShows(s.listing, a.first, p, w);
    ScanShows(ListingBetween(s, a), a.second, p, w);
  }

  // ----- Runs -----

  /** Every reading of the run sees p as w. */
  ghost predicate AlwaysSees(cfg: Settings, s: State, answers: seq<Answers>, p: Path, w: Option<FileState>)
    decreases |answers|
  {
    answers != [] ==> Sees(s, answers[0], p, w) && AlwaysSees(cfg, NextState(cfg, s, answers[0]), answers[1..], p, w)
  }

  /** As long as every reading sees p as w, the baseline is known. */
  ghost predicate KnownMeanwhile(cfg: Settings, s: State, answers: seq<Answers>, p: Path, w: Option<FileState>)
    decreases |answers|
  {
    answers != [] ==>
      s.remoteKnown && (Sees(s, answers[0], p, w) ==>
          KnownMeanwhile(cfg, NextState(cfg, s, answers[0]), answers[1..], p, w))
  }

  /** The events from the n-th on say nothing about p. */
  ghost predicate SilentFrom(trace: seq<Event>, n: nat, p: Path) {
    forall i :: n <= i < |trace| ==> !Mentions(trace[i], p)
  }

  lemma {:induction false} TraceGrows(cfg: Settings, r: Run, answers: seq<Answers>)
    ensures r.trace <= RunFrom(cfg, r, answers).trace
    decreases |answers|
  {
    if answers != [] { TraceGrows(cfg, NextRun(cfg, r, answers[0]), answers[1..]); }
  }

  lemma {:induction false} RunQuiet(
    cfg: Settings, r: Run, answers: seq<Answers>, p: Path, l: Option<FileState>, w: Option<FileState>)
    requires Settled(r.state, p, l, w) && forall a <- answers :: Untouched(a, p, l, w)
    requires AlwaysSees(cfg, r.state, answers, p, w)
    ensures Settled(RunFrom(cfg, r, answers).state, p, l, w)
    ensures r.trace <= RunFrom(cfg, r, answers).trace && SilentFrom(RunFrom(cfg, r, answers).trace, |r.trace|, p)
    decreases |answers|
  {
    if answers != [] {
      var next := NextRun(cfg, r, answers[0]);
      StepQuiet(cfg, r.state, answers[0], p, l, w);
      RunQuiet(cfg, next, answers[1..], p, l, w);
      SilentBefore(r.trace, Events(cfg, r.state, answers[0]), RunFrom(cfg, r, answers).trace, p);
    }
  }

  lemma SilentBefore(trace: seq<Event>, events: seq<Event>, all: seq<Event>, p: Path)
    requires trace + events <= all && SilentFrom(all, |trace + events|, p) && forall e <- events :: !Mentions(e, p)
    ensures trace <= all && SilentFrom(all, |trace|, p)
  {
    forall i | |trace| <= i < |all| ensures !Mentions(all[i], p) {
      if i < |trace + events| { assert all[i] == (trace + events)[i] == events[i - |trace|]; }
    }
  }

  lemma NotSilent(trace: seq<Event>, events: seq<Event>, all: seq<Event>, p: Path)
    requires trace + events <= all && exists e <- events :: Mentions(e, p)
    ensures !SilentFrom(all, |trace|, p)
  {
    var i :| 0 <= i < |events| && Mentions(events[i], p);
    assert all[|trace| + i] == (trace + events)[|trace| + i] == events[i];
  }

  /** The exact condition for a whole run: an untouched path is mentioned again if and only if some
      reading is a kept listing that shows it otherwise. */
  lemma {:induction false} EchoExactly(
    cfg: Settings, r: Run, answers: seq<Answers>, p: Path, l: Option<FileState>, w: Option<FileState>)
    requires Settled(r.state, p, l, w) && forall a <- answers :: Untouched(a, p, l, w)
    requires KnownMeanwhile(cfg, r.state, answers, p, w)
    ensures SilentFrom(RunFrom(cfg, r, answers).trace, |r.trace|, p) <==> AlwaysSees(cfg, r.state, answers, p, w)
    decreases |answers|
  {
    if answers != [] {
      var a, next, all := answers[0], NextRun(cfg, r, answers[0]), RunFrom(cfg, r, answers).trace;
      var events := Events(cfg, r.state, a);
      TraceGrows(cfg, next, answers[1..]);
      MentionedExactly(cfg, r.state, a, p, l, w);
      if Sees(r.state, a, p, w) {
        StepQuiet(cfg, r.state, a, p, l, w);
        EchoExactly(cfg, next, answers[1..], p, l, w);
        if SilentFrom(all, |next.trace|, p) { SilentBefore(r.trace, events, all, p); }
      } else {
        NotSilent(r.trace, events, all, p);
      }
    }
  }

  /** A stale listing that becomes the baseline while it is unknown is silent at first; the next reading
      that sees the path as it is reports it. */
  lemma StaleBaselineEchoes(
    cfg: Settings, s: State, a: Answers, next: Answers, p: Path, l: Option<FileState>, w: Option<FileState>)
    requires Settled(s, p, l, w) && Untouched(a, p, l, w) && Untouched(next, p, l, w)
    requires !s.remoteKnown && s.deferredRemote == map[] && PendingLocal(s, a) == map[] && !Sees(s, a, p, w)
    requires Reads(NextState(cfg, s, a), next) && ReadProvider(NextState(cfg, s, a), next).value.Full?
    requires Sees(NextState(cfg, s, a), next, p, w)
    ensures forall e <- Events(cfg, s, a) :: !Mentions(e, p)
    ensures exists e <- Events(cfg, NextState(cfg, s, a), next) :: e.Reported? && e.side == Remote && p in e.paths
  {
    TakenOver(cfg, s, a, p, l, w);
    ReportedNext(cfg, NextState(cfg, s, a), next, p, w);
  }

  lemma TakenOver(cfg: Settings, s: State, a: Answers, p: Path, l: Option<FileState>, w: Option<FileState>)
    requires Settled(s, p, l, w) && Untouched(a, p, l, w)
    requires !s.remoteKnown && s.deferredRemote == map[] && PendingLocal(s, a) == map[] && !Sees(s, a, p, w)
    ensures NextState(cfg, s, a).remoteKnown && Lookup(NextState(cfg, s, a).remote, p) != w
    ensures forall e <- Events(cfg, s, a) :: !Mentions(e, p)
  {
    var reading := ReadProvider(s, a).value;
    SettledLocal(s, a, p, l, w);
    SettleSilent(cfg, s, a, reading, p);
    SettleSnapshots(cfg, s, a, reading);
    ReadingIsYoung(s, a);
    assert PendingRemote(s, Overlay(s.remote, reading)) == map[];
    assert Events(cfg, s, a) == [LocalReport(s, a)] + [RemoteReport(s, reading)] + SettleEvents(cfg, s, a, reading);
  }

  lemma ReportedNext(cfg: Settings, s: State, a: Answers, p: Path, w: Option<FileState>)
    requires s.remoteKnown && Lookup(s.remote, p) != w
    requires Reads(s, a) && ReadProvider(s, a).value.Full? && Sees(s, a, p, w)
    ensures exists e <- Events(cfg, s, a) :: e.Reported? && e.side == Remote && p in e.paths
  {
    var report := RemoteReport(s, ReadProvider(s, a).value);
    assert Events(cfg, s, a)[1] == report && report in Events(cfg, s, a);
  }

  // ----- After a transfer -----

  /** The states read back after a successful transfer are those the world shows from then on:
      an uploaded file reads back as w (a deleted one as absent), a downloaded file as l. */
  ghost predicate ReadsBack(
    s: State, a: Answers, uploads: Changes, downloads: Changes, reading: Reading, p: Path, l: Option<FileState>,
    w: Option<FileState>)
  {
    && l == (if p in downloads then Lookup(a.localAfter, p) else Lookup(LocalNow(s, a), p))
    && (RefreshSucceeds(a, uploads) ==>
          w == if p in uploads then (if uploads[p] then None else Lookup(a.refreshed, p))
               else Lookup(Overlay(s.remote, reading), p))
  }

  /** The iteration transfers p, and p reads back as l here and w at the provider. */
  ghost predicate Transfers(
    cfg: Settings, s: State, a: Answers, p: Path, l: Option<FileState>, w: Option<FileState>)
  {
    Reads(s, a) &&
    var reading := ReadProvider(s, a).value;
    var pending, pendingRemote := PendingLocal(s, a), PendingRemote(s, Overlay(s.remote, reading));
    var uploads, downloads := PermittedLocal(cfg, pending), PermittedRemote(cfg, pendingRemote);
    && Decide(cfg, s.remoteKnown, a, pending, pendingRemote) == Transfer
    && (p in uploads || p in downloads) && ReadsBack(s, a, uploads, downloads, reading, p, l, w)
  }

  lemma TransferSettles(cfg: Settings, s: State, a: Answers, reading: Reading, p: Path, l: Option<FileState>,
      w: Option<FileState>)
    requires var pending, pendingRemote := PendingLocal(s, a), PendingRemote(s, Overlay(s.remote, reading));
             && Decide(cfg, s.remoteKnown, a, pending, pendingRemote) == Transfer
             && ReadsBack(s, a, PermittedLocal(cfg, pending), PermittedRemote(cfg, pendingRemote), reading, p, l, w)
    ensures Settled(Settle(cfg, s, a, reading), p, l, w)
  {
    SettleDeferred(cfg, s, a, reading);
    SettleSnapshots(cfg, s, a, reading);
  }

  /** After a successful transfer of p, as long as nobody touches p again and no reading is a kept
      listing that shows it otherwise, no later iteration reports, transfers or defers it, even when
      the read-back failed. With known baselines that is the exact condition. */
  lemma NoEcho(
    cfg: Settings, s: State, a: Answers, trace: seq<Event>, answers: seq<Answers>, p: Path,
    l: Option<FileState>, w: Option<FileState>)
    requires Transfers(cfg, s, a, p, l, w) && forall a' <- answers :: Untouched(a', p, l, w)
    ensures var r := Run(NextState(cfg, s, a), trace + Events(cfg, s, a));
            var end := RunFrom(cfg, r, answers);
            && (AlwaysSees(cfg, r.state, answers, p, w) ==>
               Settled(end.state, p, l, w) && SilentFrom(end.trace, |r.trace|, p))
            && (KnownMeanwhile(cfg, r.state, answers, p, w) ==>
                  (SilentFrom(end.trace, |r.trace|, p) <==> AlwaysSees(cfg, r.state, answers, p, w)))
  {
    var r := Run(NextState(cfg, s, a), trace + Events(cfg, s, a));
    TransferSettles(cfg, s, a, ReadProvider(s, a).value, p, l, w);
    if AlwaysSees(cfg, r.state, answers, p, w) { RunQuiet(cfg, r, answers, p, l, w); }
    if KnownMeanwhile(cfg, r.state, answers, p, w) { EchoExactly(cfg, r, answers, p, l, w); }
  }

  // ----- Old listings -----

  /** The listing shows p as w, or it was stamped by then. */
  predicate CurrentOrOld(listing: Option<Listing>, until: real, p: Path, w: Option<FileState>) {
    listing.Some? ==> Lookup(listing.value.snapshot, p) == w || listing.value.stamp <= until
  }

  /** The call comes after every such old listing has run out, and others keep only such listings. */
  predicate After(scan: Scan, until: real, p: Path, w: Option<FileState>) {
    && scan.asked > until + CACHE_SECONDS
    && (scan.others.Refresh? ==> CurrentOrOld(Some(scan.others.listing), until, p, w))
  }

  lemma ScanAfter(listing: Option<Listing>, scan: Scan, until: real, p: Path, w: Option<FileState>)
    requires CurrentOrOld(listing, until, p, w) && After(scan, until, p, w)
    requires scan.answer.Some? ==> Lookup(scan.answer.value, p) == w
    ensures ScanOf(listing, scan).Some? ==> Shows(ScanOf(listing, scan).value, p, w)
    ensures CurrentOrOld(KeptAfter(listing, scan), until, p, w)
  {
  }

  lemma ReadAfter(s: State, a: Answers, until: real, p: Path, l: Option<FileState>, w: Option<FileState>)
    requires CurrentOrOld(s.listing, until, p, w) && After(a.first, until, p, w) && After(a.second, until, p, w)
    requires Untouched(a, p, l, w)
    ensures Sees(s, a, p, w) && CurrentOrOld(ListingAfter(s, a), until, p, w)
  {
    ScanAfter(s.listing, a.first, until, p, w);
    ScanAfter(ListingBetween(s, a), a.second, until, p, w);
  }

  lemma StepKeepsListing(cfg: Settings, s: State, a: Answers)
    ensures NextState(cfg, s, a).listing == s.listing || NextState(cfg, s, a).listing == ListingAfter(s, a)
  {
  }

  lemma StepAfter(cfg: Settings, s: State, a: Answers, until: real, p: Path, l: Option<FileState>, w: Option<FileState>)
    requires CurrentOrOld(s.listing, until, p, w) && After(a.first, until, p, w) && After(a.second, until, p, w)
    requires Untouched(a, p, l, w)
    ensures Sees(s, a, p, w) && CurrentOrOld(NextState(cfg, s, a).listing, until, p, w)
  {
    ReadAfter(s, a, until, p, l, w);
    StepKeepsListing(cfg, s, a);
  }

  lemma {:induction false} SeesAfter(
    cfg: Settings, s: State, answers: seq<Answers>, until: real, p: Path, l: Option<FileState>, w: Option<FileState>)
    requires CurrentOrOld(s.listing, until, p, w)
    requires forall a <- answers :: Untouched(a, p, l, w) && After(a.first, until, p, w) && After(a.second, until, p, w)
    ensures AlwaysSees(cfg, s, answers, p, w)
    decreases |answers|
  {
    if answers != [] {
      assert answers[0] in answers;
      StepAfter(cfg, s, answers[0], until, p, l, w);
      SeesAfter(cfg, NextState(cfg, s, answers[0]), answers[1..], until, p, l, w);
    }
  }

  /** Outside the window there is no echo at all: once listings are called for more than five seconds
      after the last one that shows the path otherwise was stamped, it is never mentioned again. */
  lemma NoEchoOnceListingsAreOld(
    cfg: Settings, s: State, a: Answers, trace: seq<Event>, answers: seq<Answers>, until: real, p: Path,
    l: Option<FileState>, w: Option<FileState>)
    requires Transfers(cfg, s, a, p, l, w) && CurrentOrOld(ListingAfter(s, a), until, p, w)
    requires forall a' <- answers ::
             Untouched(a', p, l, w) && After(a'.first, until, p, w) && After(a'.second, until, p, w)
    ensures var r := Run(NextState(cfg, s, a), trace + Events(cfg, s, a));
            SilentFrom(RunFrom(cfg, r, answers).trace, |r.trace|, p)
  {
    SeesAfter(cfg, NextState(cfg, s, a), answers, until, p, l, w);
    NoEcho(cfg, s, a, trace, answers, p, l, w);
  }

  // ----- What the kept listing does -----

  /** A new file is saved; the check of this one path fails, and the whole provider side is listed. */
  function Saves(p: Path, saved: FileState, uploaded: FileState, scan: Scan, now: real): Answers {
    Answers(true, Touched(map[p := Some(saved)]), {p}, map[], scan, scan, true, map[p := uploaded], {}, map[],
            now, now, now, 0.0, 0.0)
  }

  /** The iteration a shows one new file p, nothing else waits, and the check of this one path fails. */
  ghost predicate NewFile(s: State, a: Answers, p: Path, saved: FileState, uploaded: FileState) {
    && a == Saves(p, saved, uploaded, a.second, a.now) && a.now < s.lastRemoteScan + s.remoteDelay
    && p !in s.local && s.deferredLocal == map[] && s.deferredRemote == map[] && s.remoteKnown
  }

  lemma NewFilePending(s: State, a: Answers, p: Path, saved: FileState, uploaded: FileState)
    requires NewFile(s, a, p, saved, uploaded)
    ensures LocalNow(s, a) == s.local[p := saved] && PendingLocal(s, a) == map[p := false]
  {
    assert LocalNow(s, a) == s.local[p := saved] by {
      forall q ensures Lookup(LocalNow(s, a), q) == Lookup(s.local[p := saved], q) { }
      SameLookups(LocalNow(s, a), s.local[p := saved]);
    }
    var pending := PendingLocal(s, a);
    forall q ensures q in pending <==> q == p {
      assert q != p ==> Lookup(LocalNow(s, a), q) == Lookup(s.local, q);
    }
  }

  lemma SameLookups(a: Snapshot, b: Snapshot)
    requires forall p :: Lookup(a, p) == Lookup(b, p)
    ensures a == b
  {
    forall p ensures p in a <==> p in b { assert Lookup(a, p) == Lookup(b, p); }
    forall p | p in a ensures a[p] == b[p] { assert Lookup(a, p) == Lookup(b, p); }
    assert a.Keys == b.Keys;
  }

  /** The provider side is then listed, once. */
  lemma NewFileReads(s: State, a: Answers, p: Path, saved: FileState, uploaded: FileState)
    requires NewFile(s, a, p, saved, uploaded) && ScanOf(s.listing, a.second).Some?
    ensures Reads(s, a) && ReadProvider(s, a) == ScanOf(s.listing, a.second)
    ensures ListingAfter(s, a) == KeptAfter(s.listing, a.second)
  {
    NewFilePending(s, a, p, saved, uploaded);
    assert WantsTargeted(s, a) && p !in a.pathStates && p in PendingLocal(s, a);
  }

  /** The file is uploaded, together with whatever the listing shows as changed elsewhere. */
  lemma NewFileApplies(
    cfg: Settings, s: State, a: Answers, p: Path, saved: FileState, uploaded: FileState, listing: Listing,
    remote: Changes)
    requires NewFile(s, a, p, saved, uploaded) && ScanOf(s.listing, a.second) == Some(Full(listing, a.second.asked))
    requires cfg.mode == TwoWay && remote == Diff(s.remote, listing.snapshot) && p !in remote
    ensures Decide(cfg, true, a, map[p := false], remote) == Transfer
    ensures PendingLocal(s, a) == map[p := false] && PendingRemote(s, listing.snapshot) == remote
    ensures Apply(map[p := false], remote, true, true, s.remote, Full(listing, a.second.asked)) in Events(cfg, s, a)
  {
    NewFilePending(s, a, p, saved, uploaded);
    NewFileReads(s, a, p, saved, uploaded);
    var reading := Full(listing, a.second.asked);
    assert s.deferredRemote + remote == remote;
    NewFileDecides(cfg, s, a, p, remote, reading);
    assert Events(cfg, s, a)[2] == Apply(map[p := false], remote, true, true, s.remote, reading);
  }

  lemma NewFileDecides(cfg: Settings, s: State, a: Answers, p: Path, remote: Changes, reading: Reading)
    requires cfg.mode == TwoWay && p !in remote && s.remoteKnown && a.applySucceeds
    requires PendingLocal(s, a) == map[p := false] && PendingRemote(s, Overlay(s.remote, reading)) == remote
    ensures Decide(cfg, true, a, map[p := false], remote) == Transfer
    ensures var events := SettleEvents(cfg, s, a, reading);
            events != [] && events[0] == Apply(map[p := false], remote, true, true, s.remote, reading)
  {
  }

  /** When the listing shows no other change, the file is remembered as it reads back. */
  lemma NewFileLeaves(
    cfg: Settings, s: State, a: Answers, p: Path, saved: FileState, uploaded: FileState, listing: Listing)
    requires NewFile(s, a, p, saved, uploaded) && ScanOf(s.listing, a.second) == Some(Full(listing, a.second.asked))
    requires cfg.mode == TwoWay && s.remote == listing.snapshot && p !in s.remote
    ensures Transfers(cfg, s, a, p, Some(saved), Some(uploaded))
    ensures var s' := NextState(cfg, s, a);
            && s'.local == s.local[p := saved] && s'.remote == s.remote[p := uploaded] && s'.remoteKnown
            && s'.deferredLocal == map[] && s'.deferredRemote == map[] && s'.listing == KeptAfter(s.listing, a.second)
  {
    var reading := Full(listing, a.second.asked);
    assert Diff(s.remote, listing.snapshot) == map[];
    NewFilePending(s, a, p, saved, uploaded);
    NewFileReads(s, a, p, saved, uploaded);
    NewFileApplies(cfg, s, a, p, saved, uploaded, listing, map[]);
    SettleSnapshots(cfg, s, a, reading);
    SettleDeferred(cfg, s, a, reading);
    ReadBackOne(s.local[p := saved], s.remote, a, p, uploaded);
  }

  lemma ReadBackOne(local: Snapshot, remote: Snapshot, a: Answers, p: Path, uploaded: FileState)
    requires a.refreshed == map[p := uploaded]
    ensures AfterDownload(local, map[], a) == local
    ensures AfterUpload(remote, map[p := false], a) == remote[p := uploaded] && RefreshSucceeds(a, map[p := false])
  {
    forall q ensures Lookup(AfterDownload(local, map[], a), q) == Lookup(local, q) { }
    SameLookups(AfterDownload(local, map[], a), local);
    forall q ensures Lookup(AfterUpload(remote, map[p := false], a), q) == Lookup(remote[p := uploaded], q) { }
    SameLookups(AfterUpload(remote, map[p := false], a), remote[p := uploaded]);
  }

  /** A second new file within five seconds of a listing that shows p as absent. */
  lemma OldListingApplies(
    cfg: Settings, s: State, p: Path, q: Path, saved: FileState, uploaded: FileState, c: Answers, listing: Listing)
    requires cfg.mode == TwoWay && p != q && s.remote == map[p := uploaded] && listing.snapshot == map[]
    requires s.listing == Some(listing) && c.second.others == Leave && c.second.asked - listing.stamp <= CACHE_SECONDS
    requires NewFile(s, c, q, saved, uploaded)
    ensures exists e <- Events(cfg, s, c) :: e.Apply? && e.ok && p in e.remote && e.remote[p]
  {
    var remote: Changes := map[p := true];
    assert Diff(s.remote, listing.snapshot) == remote;
    NewFileApplies(cfg, s, c, q, saved, uploaded, listing, remote);
  }

  /** Two files saved within five seconds, each with a failing check of its own path: the second listing
      is the first one again. It shows the first file as deleted at the provider, and the deletion of the
      user's file is handed to apply, although nobody touched it and the provider has it. */
  lemma EchoDeletes(
    cfg: Settings, s: State, saved: FileState, uploaded: FileState, p: Path, q: Path, a: Answers, c: Answers, now: real)
    requires cfg.mode == TwoWay && p != q && s.listing == None && s.remote == map[]
    requires a == Saves(p, saved, uploaded, Scan(Leave, now, Some(map[]), 0.0), now)
             && NewFile(s, a, p, saved, uploaded)
    requires c == Saves(q, saved, uploaded, Scan(Leave, now + 2.0, Some(map[p := uploaded]), 0.0), now + 2.0)
    requires q !in s.local && c.now < NextState(cfg, s, a).lastRemoteScan + NextState(cfg, s, a).remoteDelay
    ensures Transfers(cfg, s, a, p, Some(saved), Some(uploaded)) && Untouched(c, p, Some(saved), Some(uploaded))
    ensures exists e <- Events(cfg, NextState(cfg, s, a), c) :: e.Apply? && e.ok && p in e.remote && e.remote[p]
  {
    var s' := AfterOne(cfg, s, saved, uploaded, p, a, now);
    OldListingApplies(cfg, s', p, q, saved, uploaded, c, Listing(map[], now, now));
  }

  lemma EmptyScan(now: real)
    ensures ScanOf(None, Scan(Leave, now, Some(map[]), 0.0)) == Some(Full(Listing(map[], now, now), now))
    ensures KeptAfter(None, Scan(Leave, now, Some(map[]), 0.0)) == Some(Listing(map[], now, now))
  {
  }

  lemma AfterOne(cfg: Settings, s: State, saved: FileState, uploaded: FileState, p: Path, a: Answers, now: real)
    returns (s': State)
    requires cfg.mode == TwoWay && s.listing == None && s.remote == map[]
    requires a == Saves(p, saved, uploaded, Scan(Leave, now, Some(map[]), 0.0), now)
             && NewFile(s, a, p, saved, uploaded)
    ensures Transfers(cfg, s, a, p, Some(saved), Some(uploaded))
    ensures s' == NextState(cfg, s, a) && s'.local == s.local[p := saved]
            && s'.remote == map[p := uploaded] && s'.remoteKnown
    ensures s'.deferredLocal == map[] && s'.deferredRemote == map[] && s'.listing == Some(Listing(map[], now, now))
  {
    s' := NextState(cfg, s, a);
    EmptyScan(now);
    NewFileLeaves(cfg, s, a, p, saved, uploaded, Listing(map[], now, now));
    assert s.remote[p := uploaded] == map[p := uploaded];
  }

  /** The premises can be met: the first full scan was made at time zero, with a delay of 300 seconds. */
  lemma EchoHappens(saved: FileState, uploaded: FileState)
    ensures var cfg, s := Settings(TwoWay, [], 30.0),
            State(map[], map[], map[], map[], true, 0.0, 300.0, None, 0, None);
            var a := Saves("A", saved, uploaded, Scan(Leave, 10.0, Some(map[]), 0.0), 10.0);
            var c := Saves("C", saved, uploaded, Scan(Leave, 12.0, Some(map["A" := uploaded]), 0.0), 12.0);
            exists e <- Events(cfg, NextState(cfg, s, a), c) :: e.Apply? && e.ok && "A" in e.remote && e.remote["A"]
  {
    var cfg, s := Settings(TwoWay, [], 30.0), State(map[], map[], map[], map[], true, 0.0, 300.0, None, 0, None);
    var a := Saves("A", saved, uploaded, Scan(Leave, 10.0, Some(map[]), 0.0), 10.0);
    var c := Saves("C", saved, uploaded, Scan(Leave, 12.0, Some(map["A" := uploaded]), 0.0), 12.0);
    NewFileDelay(cfg, s, a, "A", saved, uploaded);
    EchoDeletes(cfg, s, saved, uploaded, "A", "C", a, c, 10.0);
  }

  /** A file is deleted here within five seconds of a listing, and was edited at the provider since: the
      listing still shows it as remembered, and the deletion is handed to apply over the edit. */
  lemma OldListingHidesEdit(cfg: Settings, s: State, a: Answers, p: Path, listing: Listing, edited: FileState)
    requires cfg.mode == TwoWay && a.enabled && a.observed == Touched(map[p := None]) && a.applySucceeds
    requires p in s.local && s.deferredLocal == map[] && s.deferredRemote == map[] && s.remoteKnown
    requires s.listing == Some(listing) && listing.snapshot == s.remote && p in s.remote && s.remote[p] != edited
    requires a.first.others == Leave && a.first.asked - listing.stamp <= CACHE_SECONDS
    requires a.first.answer == Some(s.remote[p := edited])
    ensures exists e <- Events(cfg, s, a) :: e.Apply? && e.ok && p in e.local && e.local[p] &&
              Lookup(e.remembered, p) != Lookup(a.first.answer.value, p)
  {
    var reading := Full(listing, a.first.asked);
    DeletionPending(s, a, p);
    assert ReadProvider(s, a) == Some(reading);
    assert Diff(s.remote, listing.snapshot) == map[];
    var call := Apply(map[p := true], map[], true, true, s.remote, reading);
    assert SettleEvents(cfg, s, a, reading) == [call] + [];
    assert Events(cfg, s, a)[2] == call;
  }

  lemma DeletionPending(s: State, a: Answers, p: Path)
    requires a.observed == Touched(map[p := None]) && p in s.local && s.deferredLocal == map[]
    ensures PendingLocal(s, a) == map[p := true] && !WantsTargeted(s, a)
  {
    var pending := PendingLocal(s, a);
    forall q ensures q in pending <==> q == p {
      assert q != p ==> Lookup(LocalNow(s, a), q) == Lookup(s.local, q);
    }
    assert pending[p];
  }

  lemma NewFileDelay(cfg: Settings, s: State, a: Answers, p: Path, saved: FileState, uploaded: FileState)
    requires cfg.mode == TwoWay && cfg.remoteBackoff == [] && NewFile(s, a, p, saved, uploaded)
    requires ScanOf(s.listing, a.second).Some?
    ensures NextState(cfg, s, a).remoteDelay == s.remoteDelay && NextState(cfg, s, a).lastRemoteScan == a.scanned
  {
    NewFileReads(s, a, p, saved, uploaded);
    NewFilePending(s, a, p, saved, uploaded);
    var reading := ReadProvider(s, a).value;
    var s1 := AfterReading(cfg, s, a, reading);
    ConcludeDelay(cfg, s1, a, PendingLocal(s, a), PendingRemote(s, Overlay(s.remote, reading)),
        Overlay(s.remote, reading));
  }

  // ----- What a reading tells -----

  /** A reading shows every path with a waiting local change, and a listing every path: as the provider
      answers now, or as a kept listing of at most five seconds ago has it. A targeted check leaves the
      other paths as remembered. */
  lemma ReadingTells(s: State, a: Answers, p: Path, w: Option<FileState>)
    requires ReadProvider(s, a).Some?
    requires a.first.answer.Some? ==> Lookup(a.first.answer.value, p) == w
    requires a.second.answer.Some? ==> Lookup(a.second.answer.value, p) == w
    requires p in a.pathStates ==> Some(a.pathStates[p]) == w
    ensures var reading := ReadProvider(s, a).value;
            var seen := Lookup(Overlay(s.remote, reading), p);
            match reading
            case Targeted(_) =>
              && seen == (if p in PendingLocal(s, a) then w else Lookup(s.remote, p))
              && s.remoteKnown && !FullDue(s, a) && PendingLocal(s, a) != map[]
            case Full(listing, called) =>
              && called - listing.stamp <= CACHE_SECONDS
              && (seen == w || s.listing == Some(listing)
                 || (exists scan <- [a.first, a.second] :: scan.others == Refresh(listing)))
  {
    ReadingIsYoung(s, a);
    ScanShows(s.listing, a.first, p, w);
    ScanShows(ListingBetween(s, a), a.second, p, w);
  }

  /** An upload meets the provider as remembered if and only if the reading shows it as it is: a kept
      listing can hide an edit made since. */
  lemma BlindExactly(cfg: Settings, s: State, a: Answers, p: Path, w: Option<FileState>, e: Event)
    requires cfg.mode == TwoWay && e in Events(cfg, s, a) && e.Apply? && p in e.local
    ensures Reads(s, a) && (Lookup(e.remembered, p) == w <==> Shows(ReadProvider(s, a).value, p, w))
  {
    StepGuarded(cfg, s, a);
    assert Guarded(cfg, e);
  }

  // ----- Provider changes that go unnoticed -----

  /** The path is reported as changed at the provider, or everything is left to the reconciliation. */
  ghost predicate Notices(events: seq<Event>, p: Path) {
    exists e <- events :: e.Reconciled? || (e.Reported? && e.side == Remote && p in e.paths)
  }

  /** A difference between the remembered and the read provider state is noticed if and only if the
      baseline was known, or local changes wait in two-way mode. */
  lemma NoticedExactly(cfg: Settings, s: State, a: Answers, p: Path)
    requires Consistent(s) && a.enabled && !a.observed.Rescan? && RemoteDue(s, a) && ReadProvider(s, a).Some?
    requires Lookup(s.remote, p) != Lookup(Overlay(s.remote, ReadProvider(s, a).value), p)
    ensures Notices(Events(cfg, s, a), p) <==> s.remoteKnown || (cfg.mode == TwoWay && PendingLocal(s, a) != map[])
  {
    var reading := ReadProvider(s, a).value;
    var report := RemoteReport(s, reading);
    assert Events(cfg, s, a) == [LocalReport(s, a)] + [report] + SettleEvents(cfg, s, a, reading);
    if s.remoteKnown {
      assert report in Events(cfg, s, a) && p in report.paths;
    } else {
      UnknownBaseline(cfg, s, a, reading);
      if cfg.mode == TwoWay && PendingLocal(s, a) != map[] {
        assert Events(cfg, s, a)[2] == Reconciled && Events(cfg, s, a)[2] in Events(cfg, s, a);
      } else {
        assert forall e <- Events(cfg, s, a) ::
            e == LocalReport(s, a) || e == report || e in SettleEvents(cfg, s, a, reading);
      }
    }
  }

  lemma UnknownBaseline(cfg: Settings, s: State, a: Answers, reading: Reading)
    requires Consistent(s) && !s.remoteKnown
    ensures RemoteReport(s, reading).paths == {}
    ensures cfg.mode == TwoWay && PendingLocal(s, a) != map[] ==> SettleEvents(cfg, s, a, reading) == [Reconciled]
    ensures !(cfg.mode == TwoWay && PendingLocal(s, a) != map[]) ==>
              forall e <- SettleEvents(cfg, s, a, reading) :: !e.Reconciled? && !e.Reported?
  {
    var pending, pendingRemote := PendingLocal(s, a), PendingRemote(s, Overlay(s.remote, reading));
    assert pendingRemote == map[];
    assert Decide(cfg, false, a, pending, pendingRemote) == Distrust <==> cfg.mode == TwoWay && pending != map[];
    assert Decide(cfg, false, a, pending, pendingRemote) != Conflict;
    assert forall e <- Drops(cfg, pending, pendingRemote) :: e.Dropped?;
  }

  /** A provider edit made while the baseline is unknown and nothing is pending is swallowed: the next
      reading becomes the baseline, and unless somebody touches the path again no later iteration that
      sees it as read mentions it either. */
  lemma SwallowedForGood(cfg: Settings, s: State, a: Answers, trace: seq<Event>, answers: seq<Answers>, p: Path)
    requires Consistent(s) && a.enabled && !a.observed.Rescan? && RemoteDue(s, a) && ReadProvider(s, a).Some?
    requires !s.remoteKnown && PendingLocal(s, a) == map[]
    requires var w := Lookup(Overlay(s.remote, ReadProvider(s, a).value), p);
             && w != Lookup(s.remote, p) && AlwaysSees(cfg, NextState(cfg, s, a), answers, p, w)
             && forall a' <- answers :: Untouched(a', p, Lookup(LocalNow(s, a), p), w)
    ensures var r := Run(NextState(cfg, s, a), trace + Events(cfg, s, a));
            var end := RunFrom(cfg, r, answers);
            && (forall e <- Events(cfg, s, a) :: !Mentions(e, p))
            && Lookup(r.state.remote, p) != Lookup(s.remote, p) && r.state.remoteKnown
            && SilentFrom(end.trace, |r.trace|, p)
  {
    var reading := ReadProvider(s, a).value;
    var l, w := Lookup(LocalNow(s, a), p), Lookup(Overlay(s.remote, reading), p);
    assert p !in PendingLocal(s, a) && p !in LocalReport(s, a).paths;
    SettledStays(cfg, s, a, p, l, w, reading);
    SettleSnapshots(cfg, s, a, reading);
    RunQuiet(cfg, Run(NextState(cfg, s, a), trace + Events(cfg, s, a)), answers, p, l, w);
  }
}
