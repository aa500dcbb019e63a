/** What one iteration of the change monitor makes of the answers it gets: what it reports, what it
    remembers, when and how it asks the provider, and what it does with the two sets of changes. */
module MonitorAnswers {
  import opened Basics
  import opened MonitorSteps
  import opened MonitorRuns

  // ----- Local changes -----

  /** The first thing an enabled iteration does is to report the local paths that differ from what it
      remembered: of all paths after a new listing, of the touched ones after events, else none. */
  lemma ReportsWhatWasObserved(cfg: Settings, s: State, a: Answers, p: Path)
    requires a.enabled
    ensures var events := Events(cfg, s, a);
            && events != [] && events[0].Reported? && events[0].side == Local
            && (forall e <- events[1..] :: !(e.Reported? && e.side == Local))
            && match a.observed
               case Quiet => p !in events[0].paths
               case Rescan(m) => p in events[0].paths <==> Lookup(s.local, p) != Lookup(m, p)
               case Polled(m) => p in events[0].paths <==> Lookup(s.local, p) != Lookup(m, p)
               case Touched(states) => p in events[0].paths <==> p in states && Lookup(s.local, p) != states[p]
  {
    if !a.observed.Rescan? && RemoteDue(s, a) && ReadProvider(s, a).Some? {
      SettleReportsNothing(cfg, s, a, ReadProvider(s, a).value);
    }
  }

  lemma SettleReportsNothing(cfg: Settings, s: State, a: Answers, reading: Reading)
    ensures forall e <- SettleEvents(cfg, s, a, reading) :: !e.Reported?
  {
  }

  /** A disabled job is left alone. */
  lemma DisabledDoesNothing(cfg: Settings, s: State, a: Answers)
    requires !a.enabled
    ensures NextState(cfg, s, a) == s && Events(cfg, s, a) == []
  {
  }

  /** The path was downloaded in this iteration. */
  ghost predicate Downloaded(events: seq<Event>, p: Path) {
    exists e <- events :: e.Apply? && e.ok && p in e.remote
  }

  /** What the iteration sees of a local path: all paths after a new listing, the touched ones after events. */
  function Observed(s: State, a: Answers, p: Path): Option<FileState> {
    match a.observed
    case Quiet => Lookup(s.local, p)
    case Rescan(m) => Lookup(m, p)
    case Polled(m) => Lookup(m, p)
    case Touched(states) => if p in states then states[p] else Lookup(s.local, p)
  }

  /** Afterwards the iteration remembers the local state it observed, or read after a download. */
  lemma RemembersWhatWasObserved(cfg: Settings, s: State, a: Answers, p: Path)
    requires a.enabled
    ensures Lookup(NextState(cfg, s, a).local, p) ==
            if Downloaded(Events(cfg, s, a), p) then Lookup(a.localAfter, p)
            else Observed(s, a, p)
  {
    if !a.observed.Rescan? && RemoteDue(s, a) && ReadProvider(s, a).Some? {
      var reading := ReadProvider(s, a).value;
      SettledLocalState(cfg, s, a, reading, p);
      ReadingDownloads(cfg, s, a, reading, p);
    }
    ObservedExactly(s, a, p);
  }

  lemma ReadingDownloads(cfg: Settings, s: State, a: Answers, reading: Reading, p: Path)
    requires a.enabled && !a.observed.Rescan? && RemoteDue(s, a) && ReadProvider(s, a) == Some(reading)
    ensures Downloaded(Events(cfg, s, a), p) <==> Downloaded(SettleEvents(cfg, s, a, reading), p)
    ensures NextState(cfg, s, a).local == Settle(cfg, s, a, reading).local
  {
    assert Events(cfg, s, a) == [LocalReport(s, a)] + [RemoteReport(s, reading)] + SettleEvents(cfg, s, a, reading);
  }

  lemma ObservedExactly(s: State, a: Answers, p: Path)
    ensures Lookup(LocalNow(s, a), p) == Observed(s, a, p)
  {
  }

  lemma SettledLocalState(cfg: Settings, s: State, a: Answers, reading: Reading, p: Path)
    ensures var pendingRemote := PendingRemote(s, Overlay(s.remote, reading));
            Downloaded(SettleEvents(cfg, s, a, reading), p) <==>
            && Decide(cfg, s.remoteKnown, a, PendingLocal(s, a), pendingRemote) == Transfer
            && p in PermittedRemote(cfg, pendingRemote)
    ensures Lookup(Settle(cfg, s, a, reading).local, p) ==
            if Downloaded(SettleEvents(cfg, s, a, reading), p) then Lookup(a.localAfter, p)
            else Lookup(LocalNow(s, a), p)
  {
  }

  // ----- Asking the provider -----

  /** The local paths that are open once the local changes are known: the deferred and the reported ones. */
  ghost function Open(cfg: Settings, s: State, a: Answers): set<Path>
    requires a.enabled
  {
    ReportsWhatWasObserved(cfg, s, a, "");
    s.deferredLocal.Keys + Events(cfg, s, a)[0].paths
  }

  lemma OpenIsPending(cfg: Settings, s: State, a: Answers)
    requires a.enabled
    ensures Open(cfg, s, a) == PendingLocal(s, a).Keys
    ensures Open(cfg, s, a) != {} <==> PendingLocal(s, a) != map[]
  {
    assert PendingLocal(s, a).Keys == s.deferredLocal.Keys + Diff(s.local, LocalNow(s, a)).Keys;
  }

  /** An open path, a full scan that is due, or a recovery look that is due. */
  ghost predicate Asks(cfg: Settings, s: State, a: Answers)
    requires a.enabled
  {
    || Open(cfg, s, a) != {}
    || a.now >= s.lastRemoteScan + s.remoteDelay
    || (s.recoveryDue.Some? && a.now >= s.recoveryDue.value)
  }

  /** Without a reason to ask the provider the iteration ends after the local report. With one it reports
      what the provider changed if the provider answers; else it defers every open path, doubles the delay
      within the poll interval and 300 seconds, and postpones a recovery look by the new delay. */
  lemma AskedExactly(cfg: Settings, s: State, a: Answers)
    requires a.enabled && !a.observed.Rescan?
    ensures !Asks(cfg, s, a) ==>
              |Events(cfg, s, a)| == 1 && NextState(cfg, s, a) == s.(local := NextState(cfg, s, a).local)
    ensures Asks(cfg, s, a) && ReadProvider(s, a).Some? ==>
              |Events(cfg, s, a)| >= 2 && Events(cfg, s, a)[1].Reported? && Events(cfg, s, a)[1].side == Remote
    ensures Asks(cfg, s, a) && ReadProvider(s, a).None? ==>
              var s', doubled := NextState(cfg, s, a), 2.0 * s.remoteDelay;
              var delay := if doubled < cfg.remotePollSeconds then cfg.remotePollSeconds else doubled;
              && |Events(cfg, s, a)| == 1 && s'.deferredLocal.Keys == Open(cfg, s, a)
              && s'.remoteDelay == (if delay > 300.0 then 300.0 else delay)
              && s'.recoveryDue == (if s.recoveryDue.Some? then Some(a.finished + s'.remoteDelay) else None)
              && s' == s.(local := s'.local, deferredLocal := s'.deferredLocal, remoteDelay := s'.remoteDelay,
                          recoveryDue := s'.recoveryDue, listing := s'.listing)
  {
    OpenIsPending(cfg, s, a);
  }

  /** The listing that is served without asking the provider: what others made of the kept one, for five seconds. */
  function Young(listing: Option<Listing>, scan: Scan): Option<Listing> {
    match scan.others
    case Leave => if listing.Some? && scan.asked - listing.value.stamp <= 5.0 then listing else None
    case Forget => None
    case Refresh(newer) => if scan.asked - newer.stamp <= 5.0 then Some(newer) else None
  }

  /** A full scan fails if and only if no listing is young enough and the provider fails; it shows that
      listing, or the new one, which is stamped at its end. */
  lemma ScanExactly(listing: Option<Listing>, scan: Scan)
    ensures ScanOf(listing, scan).None? <==> Young(listing, scan).None? && scan.answer.None?
    ensures ScanOf(listing, scan).Some? ==>
              ScanOf(listing, scan).value == Full(
                if Young(listing, scan).Some? then Young(listing, scan).value
                else Listing(scan.answer.value, scan.asked, scan.asked + scan.took), scan.asked)
  {
  }

  /** A targeted check is tried: only regular files that exist are open, the baseline is known and the
      full scan is not due. */
  ghost predicate TriesTargeted(cfg: Settings, s: State, a: Answers)
    requires a.enabled
  {
    && Open(cfg, s, a) != {} && s.remoteKnown && a.now < s.lastRemoteScan + s.remoteDelay
    && forall p <- Open(cfg, s, a) :: Observed(s, a, p).Some? && p in a.isFile
  }

  /** How an iteration that asks the provider reads it: a targeted check of exactly the open paths when one
      is tried and every path is found; otherwise a full scan. A failure is followed by one more scan if a
      targeted check failed, or if paths are open and the full scan is not due anyway. */
  lemma ReadsExactly(cfg: Settings, s: State, a: Answers)
    requires a.enabled && Consistent(s)
    ensures var open := Open(cfg, s, a);
            var once, later := ScanOf(s.listing, a.first), KeptAfter(s.listing, a.first);
            ReadProvider(s, a) ==
              if TriesTargeted(cfg, s, a) then
                if open <= a.pathStates.Keys then Some(Targeted(map p | p in open :: a.pathStates[p]))
                else ScanOf(s.listing, a.second)
              else if once.None? && open != {} && a.now < s.lastRemoteScan + s.remoteDelay then ScanOf(later, a.second)
              else once
  {
    OpenIsPending(cfg, s, a);
    FlagsOfPending(s, a);
  }

  lemma FlagsOfPending(s: State, a: Answers)
    requires Consistent(s)
    ensures forall p <- PendingLocal(s, a) :: PendingLocal(s, a)[p] <==> Observed(s, a, p).None?
  {
    OverlayFlags(s.deferredLocal, s.local, LocalNow(s, a));
    forall p ensures Lookup(LocalNow(s, a), p) == Observed(s, a, p) { ObservedExactly(s, a, p); }
  }

  // ----- Deciding -----

  /** The paths open at the provider: the deferred and the reported ones. */
  ghost function OpenRemotely(s: State, events: seq<Event>): set<Path>
    requires |events| >= 2 && events[1].Reported?
  {
    s.deferredRemote.Keys + events[1].paths
  }

  /** A two-way job leaves open paths to the full reconciliation if and only if the baseline was unknown
      and local ones are open, or a path is open on both sides. Otherwise what the mode permits is applied,
      unless that is nothing. */
  lemma DecidesExactly(cfg: Settings, s: State, a: Answers)
    requires a.enabled && !a.observed.Rescan? && Asks(cfg, s, a) && ReadProvider(s, a).Some?
    ensures var events := Events(cfg, s, a);
            |events| >= 2 && events[1].Reported? &&
            var local, remote := Open(cfg, s, a), OpenRemotely(s, events);
            var left := cfg.mode == TwoWay && ((!s.remoteKnown && local != {}) || local * remote != {});
            var nothing := (cfg.mode == DownloadOnly || local == {}) && (cfg.mode == UploadOnly || remote == {});
            && ((exists e <- events :: e.Reconciled?) <==> left)
            && ((exists e <- events :: e.Apply?) <==> !left && !nothing)
            && forall e <- events :: e.Apply? ==> e.ok == a.applySucceeds
  {
    var reading := ReadProvider(s, a).value;
    OpenIsPending(cfg, s, a);
    OpenRemotelyIsPending(s, reading, Events(cfg, s, a));
    SettleDecides(cfg, s, a, reading);
    assert Events(cfg, s, a) == [LocalReport(s, a)] + [RemoteReport(s, reading)] + SettleEvents(cfg, s, a, reading);
  }

  lemma OpenRemotelyIsPending(s: State, reading: Reading, events: seq<Event>)
    requires |events| >= 2 && events[1] == RemoteReport(s, reading)
    ensures OpenRemotely(s, events) == PendingRemote(s, Overlay(s.remote, reading)).Keys
    ensures OpenRemotely(s, events) != {} <==> PendingRemote(s, Overlay(s.remote, reading)) != map[]
  {
    assert PendingRemote(s, Overlay(s.remote, reading)).Keys ==
           s.deferredRemote.Keys + RemoteDiff(s, Overlay(s.remote, reading)).Keys;
  }

  lemma SettleDecides(cfg: Settings, s: State, a: Answers, reading: Reading)
    ensures var events := SettleEvents(cfg, s, a, reading);
            var local, remote := PendingLocal(s, a), PendingRemote(s, Overlay(s.remote, reading));
            var left := cfg.mode == TwoWay && ((!s.remoteKnown && local != map[]) || local.Keys * remote.Keys != {});
            var nothing := (cfg.mode == DownloadOnly || local == map[]) && (cfg.mode == UploadOnly || remote == map[]);
            && ((exists e <- events :: e.Reconciled?) <==> left)
            && ((exists e <- events :: e.Apply?) <==> !left && !nothing)
            && forall e <- events :: e.Apply? ==> e.ok == a.applySucceeds
  {
    var events := SettleEvents(cfg, s, a, reading);
    var verdict := Decide(cfg, s.remoteKnown, a, PendingLocal(s, a), PendingRemote(s, Overlay(s.remote, reading)));
    if verdict == Distrust || verdict == Conflict { assert events[0].Reconciled?; }
    if verdict == Transfer || verdict == Refuse { assert events[0].Apply?; }
  }

  /** After an overflow or a change of directories everything is left to the full reconciliation. */
  lemma RescanReconciles(cfg: Settings, s: State, a: Answers)
    requires a.enabled && a.observed.Rescan?
    ensures |Events(cfg, s, a)| == 2 && Events(cfg, s, a)[1] == Reconciled
    ensures NextState(cfg, s, a) == s.(local := a.observed.snapshot, deferredLocal := map[], deferredRemote := map[],
                                       recoveryDue := Some(a.finished + 10.0))
  {
  }

  // ----- The new baseline -----

  /** What the reading shows of a provider path: the answer for it, or what is remembered of a path that a
      targeted check leaves out. */
  function Seen(s: State, reading: Reading, p: Path): Option<FileState> {
    match reading
    case Targeted(states) => if p in states then Some(states[p]) else Lookup(s.remote, p)
    case Full(listing, _) => Lookup(listing.snapshot, p)
  }

  /** The path was uploaded in this iteration, with that deletion flag. */
  ghost predicate Uploaded(events: seq<Event>, p: Path, deleted: bool) {
    exists e <- events :: e.Apply? && e.ok && p in e.local && e.local[p] == deleted
  }

  /** The baseline stays known if and only if every file that was uploaded could be read back. Then it shows
      each uploaded path as read back, and every other path as the reading showed it. Only a full reading
      counts as a scan. */
  lemma BaselineExactly(cfg: Settings, s: State, a: Answers, p: Path)
    requires a.enabled && !a.observed.Rescan? && Asks(cfg, s, a) && ReadProvider(s, a).Some?
    ensures var events, s', reading := Events(cfg, s, a), NextState(cfg, s, a), ReadProvider(s, a).value;
            && (s'.remoteKnown <==> forall q :: Uploaded(events, q, false) ==> q in a.refreshed)
            && (s'.remoteKnown ==>
                  Lookup(s'.remote, p) ==
                  if Uploaded(events, p, true) then None
                  else if Uploaded(events, p, false) then Some(a.refreshed[p])
                  else Seen(s, reading, p))
            && (!s'.remoteKnown && p !in a.refreshedBeforeFailure ==> Lookup(s'.remote, p) == Seen(s, reading, p))
            && s'.lastRemoteScan == if reading.Full? then a.scanned else s.lastRemoteScan
  {
    OpenIsPending(cfg, s, a);
    var reading := ReadProvider(s, a).value;
    var settled := SettleEvents(cfg, s, a, reading);
    assert Events(cfg, s, a) == [LocalReport(s, a)] + [RemoteReport(s, reading)] + settled;
    forall q, deleted ensures Uploaded(Events(cfg, s, a), q, deleted) <==> Uploaded(settled, q, deleted) {
    }
    SettledBaseline(cfg, s, a, reading, p);
    SettledScan(cfg, s, a, reading);
  }

  lemma UploadedExactly(cfg: Settings, s: State, a: Answers, reading: Reading, p: Path, deleted: bool)
    ensures var pending := PendingLocal(s, a);
            Uploaded(SettleEvents(cfg, s, a, reading), p, deleted) <==>
            && Decide(cfg, s.remoteKnown, a, pending, PendingRemote(s, Overlay(s.remote, reading))) == Transfer
            && p in PermittedLocal(cfg, pending) && PermittedLocal(cfg, pending)[p] == deleted
  {
  }

  lemma SettledBaseline(cfg: Settings, s: State, a: Answers, reading: Reading, p: Path)
    ensures var events, s' := SettleEvents(cfg, s, a, reading), Settle(cfg, s, a, reading);
            && (s'.remoteKnown <==> forall q :: Uploaded(events, q, false) ==> q in a.refreshed)
            && (s'.remoteKnown ==>
                  Lookup(s'.remote, p) ==
                  if Uploaded(events, p, true) then None
                  else if Uploaded(events, p, false) then Some(a.refreshed[p])
                  else Seen(s, reading, p))
            && (!s'.remoteKnown && p !in a.refreshedBeforeFailure ==> Lookup(s'.remote, p) == Seen(s, reading, p))
  {
    var events := SettleEvents(cfg, s, a, reading);
    var pending, newRemote := PendingLocal(s, a), Overlay(s.remote, reading);
    var uploads := PermittedLocal(cfg, pending);
    SettleSnapshots(cfg, s, a, reading);
    assert Lookup(newRemote, p) == Seen(s, reading, p);
    if Decide(cfg, s.remoteKnown, a, pending, PendingRemote(s, newRemote)) == Transfer {
      forall q ensures Uploaded(events, q, false) <==> q in uploads && !uploads[q] {
        UploadedExactly(cfg, s, a, reading, q, false);
      }
      UploadedExactly(cfg, s, a, reading, p, true);
      UploadBaseline(newRemote, uploads, a, p);
    } else {
      NothingUploaded(cfg, s, a, reading);
    }
  }

  lemma NothingUploaded(cfg: Settings, s: State, a: Answers, reading: Reading)
    requires Decide(cfg, s.remoteKnown, a, PendingLocal(s, a), PendingRemote(s, Overlay(s.remote, reading))) != Transfer
    ensures forall q, deleted :: !Uploaded(SettleEvents(cfg, s, a, reading), q, deleted)
  {
    forall q, deleted ensures !Uploaded(SettleEvents(cfg, s, a, reading), q, deleted) {
      UploadedExactly(cfg, s, a, reading, q, deleted);
    }
  }

  lemma SettledScan(cfg: Settings, s: State, a: Answers, reading: Reading)
    ensures Settle(cfg, s, a, reading).lastRemoteScan == if reading.Full? then a.scanned else s.lastRemoteScan
  {
  }

  lemma UploadBaseline(seen: Snapshot, uploads: Changes, a: Answers, p: Path)
    ensures RefreshSucceeds(a, uploads) <==> forall q :: q in uploads && !uploads[q] ==> q in a.refreshed
    ensures RefreshSucceeds(a, uploads) ==>
              Lookup(AfterUpload(seen, uploads, a), p) ==
              if p !in uploads then Lookup(seen, p) else if uploads[p] then None else Some(a.refreshed[p])
    ensures !RefreshSucceeds(a, uploads) && p !in a.refreshedBeforeFailure ==>
              Lookup(AfterUpload(seen, uploads, a), p) == Lookup(seen, p)
  {
    assert Existing(uploads) <= a.refreshed.Keys <==> forall q :: q in Existing(uploads) ==> q in a.refreshed;
  }

  // ----- The recovery look -----

  /** Ten seconds after a reconciliation or transfer the provider is looked at once more; a look that is
      over by the end of an iteration that read the provider is not repeated. */
  lemma RecoveryExactly(cfg: Settings, s: State, a: Answers)
    requires a.enabled && !a.observed.Rescan? && Asks(cfg, s, a) && ReadProvider(s, a).Some?
    ensures NextState(cfg, s, a).recoveryDue ==
            if exists e <- Events(cfg, s, a) :: e.Reconciled? || (e.Apply? && e.ok) then Some(a.finished + 10.0)
            else if s.recoveryDue.Some? && a.finished >= s.recoveryDue.value then None
            else s.recoveryDue
  {
    OpenIsPending(cfg, s, a);
    var reading := ReadProvider(s, a).value;
    assert Events(cfg, s, a) == [LocalReport(s, a)] + [RemoteReport(s, reading)] + SettleEvents(cfg, s, a, reading);
    SettleRecovers(cfg, s, a, reading);
  }

  lemma SettleRecovers(cfg: Settings, s: State, a: Answers, reading: Reading)
    ensures Settle(cfg, s, a, reading).recoveryDue ==
            if exists e <- SettleEvents(cfg, s, a, reading) :: e.Reconciled? || (e.Apply? && e.ok)
            then Some(a.finished + 10.0)
            else if s.recoveryDue.Some? && a.finished >= s.recoveryDue.value then None
            else s.recoveryDue
  {
    var verdict := Decide(cfg, s.remoteKnown, a, PendingLocal(s, a), PendingRemote(s, Overlay(s.remote, reading)));
    var events := SettleEvents(cfg, s, a, reading);
    if verdict == Distrust || verdict == Conflict { assert events[0].Reconciled?; }
    if verdict == Transfer { assert events[0].Apply? && events[0].ok; }
  }

  // ----- Backing off -----

  /** An iteration that read the provider and found nothing open goes one step down the backoff table, up
      to its last entry; one that found something goes back to the first. Without a table the delay stays.
      Only an iteration that had to distrust its baseline leaves the position alone. */
  lemma BackoffExactly(cfg: Settings, s: State, a: Answers)
    requires a.enabled && !a.observed.Rescan? && Asks(cfg, s, a) && ReadProvider(s, a).Some?
    requires s.remoteKnown || cfg.mode != TwoWay || Open(cfg, s, a) == {}
    ensures var events := Events(cfg, s, a);
            |events| >= 2 && events[1].Reported? &&
            var s', last := NextState(cfg, s, a), |cfg.remoteBackoff| - 1;
            && (Open(cfg, s, a) + OpenRemotely(s, events) != {} ==> s'.backoffIndex == 0)
            && (Open(cfg, s, a) + OpenRemotely(s, events) == {} ==>
                  s'.backoffIndex == if s.backoffIndex < last then s.backoffIndex + 1 else last)
            && (last >= 0 && s.backoffIndex >= 0 ==>
                  s'.backoffIndex <= last && s'.remoteDelay == cfg.remoteBackoff[s'.backoffIndex] + a.lastJitter)
            && (last < 0 ==>
                  s'.remoteDelay == if s.remoteKnown then s.remoteDelay else cfg.remotePollSeconds + a.firstJitter)
  {
    var reading := ReadProvider(s, a).value;
    OpenIsPending(cfg, s, a);
    OpenRemotelyIsPending(s, reading, Events(cfg, s, a));
    SettleBacksOff(cfg, s, a, reading);
  }

  lemma SettleBacksOff(cfg: Settings, s: State, a: Answers, reading: Reading)
    requires s.remoteKnown || cfg.mode != TwoWay || PendingLocal(s, a) == map[]
    ensures var s', last := Settle(cfg, s, a, reading), |cfg.remoteBackoff| - 1;
            var busy := PendingLocal(s, a) != map[] || PendingRemote(s, Overlay(s.remote, reading)) != map[];
            && s'.backoffIndex == (if busy then 0 else if s.backoffIndex < last then s.backoffIndex + 1 else last)
            && (last >= 0 && s.backoffIndex >= 0 ==>
                  s'.backoffIndex <= last && s'.remoteDelay == cfg.remoteBackoff[s'.backoffIndex] + a.lastJitter)
            && (last < 0 ==>
                  s'.remoteDelay == if s.remoteKnown then s.remoteDelay else cfg.remotePollSeconds + a.firstJitter)
  {
    var s1, newRemote := AfterReading(cfg, s, a, reading), Overlay(s.remote, reading);
    var pending, pendingRemote := PendingLocal(s, a), PendingRemote(s, newRemote);
    var offered := Offered(cfg, s1, a, s.remoteKnown, pending, pendingRemote, newRemote);
    assert offered.0.backoffIndex == s.backoffIndex && offered.0.remoteDelay == s1.remoteDelay;
    FinishBacksOff(cfg, offered.0, a, offered.1, pending != map[] || pendingRemote != map[]);
  }

  lemma FinishBacksOff(cfg: Settings, s: State, a: Answers, newRemote: Snapshot, busy: bool)
    ensures var s', last := Finish(cfg, s, a, newRemote, busy), |cfg.remoteBackoff| - 1;
            && s'.backoffIndex == (if busy then 0 else if s.backoffIndex < last then s.backoffIndex + 1 else last)
            && (last >= 0 && s.backoffIndex >= 0 ==>
                  s'.backoffIndex <= last && s'.remoteDelay == cfg.remoteBackoff[s'.backoffIndex] + a.lastJitter)
            && (last < 0 ==> s'.remoteDelay == s.remoteDelay)
  {
  }

  /** In each iteration the provider answers, and nothing is open on either side. */
  ghost predicate NothingNew(cfg: Settings, s: State, answers: seq<Answers>)
    decreases |answers|
  {
    answers != [] ==>
      var a := answers[0];
      && a.enabled && !a.observed.Rescan? && Asks(cfg, s, a) && ReadProvider(s, a).Some? && Open(cfg, s, a) == {}
      && |Events(cfg, s, a)| >= 2 && Events(cfg, s, a)[1].Reported? && OpenRemotely(s, Events(cfg, s, a)) == {}
      && NothingNew(cfg, NextState(cfg, s, a), answers[1..])
  }

  /** While nothing happens the delay walks down the table: after n readings it is the n-th entry behind
      the one it started from, or the last. */
  lemma {:induction false} QuietRunBacksOff(cfg: Settings, r: Run, answers: seq<Answers>)
    requires answers != [] && NothingNew(cfg, r.state, answers) && 0 <= r.state.backoffIndex < |cfg.remoteBackoff|
    ensures var end, n, last := RunFrom(cfg, r, answers).state, |answers|, |cfg.remoteBackoff| - 1;
            var i := if r.state.backoffIndex + n < last then r.state.backoffIndex + n else last;
            end.backoffIndex == i && end.remoteDelay == cfg.remoteBackoff[i] + answers[n-1].lastJitter
    decreases |answers|
  {
    BackoffExactly(cfg, r.state, answers[0]);
    assert RunFrom(cfg, r, answers) == RunFrom(cfg, NextRun(cfg, r, answers[0]), answers[1..]);
    if |answers| > 1 {
      QuietRunBacksOff(cfg, NextRun(cfg, r, answers[0]), answers[1..]);
    } else {
      assert RunFrom(cfg, NextRun(cfg, r, answers[0]), answers[1..]) == NextRun(cfg, r, answers[0]);
    }
  }
}
