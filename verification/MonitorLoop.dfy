/** The change monitor as an object whose loop updates its snapshots, queues and deadlines in place. */
module MonitorLoop {
  import opened Basics
  import opened MonitorSteps
  import opened MonitorRuns
  import opened MonitorSafety

  class ChangeMonitor {
    const cfg: Settings
    var local: Snapshot
    var remote: Snapshot
    var deferredLocal: Changes
    var deferredRemote: Changes
    var remoteKnown: bool
    var lastRemoteScan: real
    var remoteDelay: real
    var recoveryDue: Option<real>
    var backoffIndex: int
    var listing: Option<Listing>   // kept for all monitors of the same folder
    ghost var trace: seq<Event>

    ghost function Now(): State
      reads this
    {
      State(local, remote, deferredLocal, deferredRemote, remoteKnown, lastRemoteScan, remoteDelay, recoveryDue,
          backoffIndex, listing)
    }

    /** Conservation, current deletion flags, guarded and exact transfers, over everything done so far. */
    ghost predicate Valid()
      reads this
    {
      Safe(cfg, Run(Now(), trace))
    }

    /** Startup: what changed between the two local snapshots is deferred. */
    constructor (cfg: Settings, before: Snapshot, after: Snapshot, known: Option<Snapshot>, now: real, delay: real,
        listing: Option<Listing>)
      ensures Valid() && this.cfg == cfg
      ensures Run(Now(), trace) == StartRun(before, after, known, now, delay, listing)
    {
      this.cfg := cfg;
      local := after;
      remote := if known.Some? then known.value else map[];
      deferredLocal := Diff(before, after);
      deferredRemote := map[];
      remoteKnown := known.Some?;
      lastRemoteScan := now;
      remoteDelay := delay;
      recoveryDue := None;
      backoffIndex := 0;
      this.listing := listing;
      trace := [Reported(Local, Diff(before, after).Keys)];
      new;
      StartSafe(cfg, before, after, known, now, delay, listing);
    }

    /** Writes file states into a snapshot; a missing state removes the path. */
    static method WriteStates(m: Snapshot, states: map<Path, Option<FileState>>) returns (r: Snapshot)
      ensures r == Put(m, states)
    {
      r := m;
      var todo := states.Keys;
      while todo != {}
        invariant todo <= states.Keys
        invariant forall p :: Lookup(r, p) == if p in states && p !in todo then states[p] else Lookup(m, p)
      {
        var p :| p in todo;
        if states[p].None? { r := r - {p}; } else { r := r[p := states[p].value]; }
        todo := todo - {p};
      }
      SameLookups(r, Put(m, states));
    }

    static lemma SameLookups(a: Snapshot, b: Snapshot)
      requires forall p :: Lookup(a, p) == Lookup(b, p)
      ensures a == b
    {
      forall p ensures p in a <==> p in b { assert Lookup(a, p) == Lookup(b, p); }
      forall p | p in a ensures a[p] == b[p] { assert Lookup(a, p) == Lookup(b, p); }
      assert a.Keys == b.Keys;
    }

    method ObserveLocal(a: Answers) returns (changes: Changes)
      modifies this`local
      ensures local == LocalNow(old(Now()), a)
      ensures changes == PendingLocal(old(Now()), a)
    {
      var before := local;
      match a.observed {
        case Quiet =>
        case Rescan(snapshot) => local := snapshot;
        case Touched(states) => local := WriteStates(local, states);
        case Polled(snapshot) => local := snapshot;
      }
      changes := deferredLocal + Diff(before, local);
    }

    /** A listing: the kept one while it is young enough, else the provider's answer, which is then kept. */
    method RemoteSnapshot(scan: Scan) returns (reading: Option<Reading>)
      modifies this`listing
      ensures reading == ScanOf(old(listing), scan) && listing == KeptAfter(old(listing), scan)
    {
      match scan.others {
        case Leave =>
        case Forget => listing := None;
        case Refresh(newer) => listing := Some(newer);
      }
      if listing.Some? && scan.asked - listing.value.stamp <= CACHE_SECONDS {
        return Some(Full(listing.value, scan.asked));
      }
      if scan.answer.None? { return None; }
      listing := Some(Listing(scan.answer.value, scan.asked, scan.asked + scan.took));
      return Some(Full(listing.value, scan.asked));
    }

    /** The targeted check or the scans; None when the provider fails. */
    method AskProvider(a: Answers, changes: Changes, fullDue: bool, ghost s: State) returns (reading: Option<Reading>)
      requires Now() == s.(local := LocalNow(s, a)) && changes == PendingLocal(s, a) && fullDue == FullDue(s, a)
      modifies this`listing
      ensures reading == ReadProvider(s, a) && listing == ListingAfter(s, a)
    {
      if changes != map[] && !fullDue && remoteKnown && forall p <- changes :: !changes[p] && p in a.isFile {
        if changes.Keys <= a.pathStates.Keys {
          return Some(Targeted(map p | p in changes :: a.pathStates[p]));
        }
      } else {
        reading := RemoteSnapshot(a.first);
        if reading.Some? { return; }
      }
      if changes == map[] || fullDue { return None; }
      reading := RemoteSnapshot(a.second);
    }

    /** One iteration. */
    method Iterate(a: Answers)
      requires Valid()
      modifies this
      ensures Valid()
      ensures Now() == NextState(cfg, old(Now()), a) && trace == old(trace) + Events(cfg, old(Now()), a)
    {
      StepSafe(cfg, Run(Now(), trace), a);
      trace := trace + Events(cfg, Now(), a);
      Advance(a);
    }

    method Advance(a: Answers)
      modifies this`local, this`remote, this`deferredLocal, this`deferredRemote, this`remoteKnown,
               this`lastRemoteScan, this`remoteDelay, this`recoveryDue, this`backoffIndex, this`listing
      ensures Now() == NextState(cfg, old(Now()), a)
    {
      if !a.enabled { return; }
      var localChanges := ObserveLocal(a);
      if a.observed.Rescan? {
        HandOver(a);
        return;
      }
      var fullDue := a.now >= lastRemoteScan + remoteDelay;
      if localChanges == map[] && !fullDue && !(recoveryDue.Some? && a.now >= recoveryDue.value) { return; }
      var reading := AskProvider(a, localChanges, fullDue, old(Now()));
      if reading.None? {
        BackOff(a, localChanges, old(Now()));
      } else {
        SettleReading(a, localChanges, reading.value, old(Now()));
      }
    }

    /** The provider failed: the local changes wait, and the delay since the last full scan grows or is cut to 300
        seconds. */
    method BackOff(a: Answers, localChanges: Changes, ghost s: State)
      requires Now() == s.(local := LocalNow(s, a), listing := listing) && localChanges == PendingLocal(s, a)
      modifies this`deferredLocal, this`remoteDelay, this`recoveryDue
      ensures Now() == PutOff(cfg, s, a).(listing := listing)
    {
      deferredLocal := deferredLocal + localChanges;
      remoteDelay := Min(300.0, Max(remoteDelay * 2.0, cfg.remotePollSeconds));
      if recoveryDue.Some? { recoveryDue := Some(a.finished + remoteDelay); }
    }

    /** Reconcile, apply or drop, then remember what the provider showed. */
    method SettleReading(a: Answers, localChanges: Changes, reading: Reading, ghost s: State)
      requires Now() == s.(local := LocalNow(s, a), listing := listing) && localChanges == PendingLocal(s, a)
      modifies this`local, this`remote, this`deferredLocal, this`deferredRemote, this`remoteKnown,
               this`lastRemoteScan, this`remoteDelay, this`recoveryDue, this`backoffIndex
      ensures Now() == Settle(cfg, s, a, reading).(listing := listing)
    {
      var newRemote := Overlay(remote, reading);
      var uncertain := !remoteKnown;
      var remoteChanges := NoteReading(a, reading, newRemote, s);
      ConcludePasses(cfg, AfterReading(cfg, s, a, reading), listing, a, !uncertain, localChanges, remoteChanges,
          newRemote);
      ConcludeReading(a, uncertain, localChanges, remoteChanges, newRemote);
    }

    static lemma OfferPasses(
      cfg: Settings, s1: State, listing: Option<Listing>, a: Answers, pending: Changes, pendingRemote: Changes,
      seen: Snapshot)
      ensures var offered := Offer(cfg, s1, a, pending, pendingRemote, seen);
              Offer(cfg, s1.(listing := listing), a, pending, pendingRemote, seen) ==
              (offered.0.(listing := listing), offered.1)
    {
    }

    static lemma OfferedPasses(
      cfg: Settings, s1: State, listing: Option<Listing>, a: Answers, known: bool, pending: Changes,
      pendingRemote: Changes,
      seen: Snapshot)
      ensures var offered := Offered(cfg, s1, a, known, pending, pendingRemote, seen);
              Offered(cfg, s1.(listing := listing), a, known, pending, pendingRemote, seen) ==
              (offered.0.(listing := listing), offered.1)
    {
      OfferPasses(cfg, s1, listing, a, pending, pendingRemote, seen);
    }

    static lemma FinishPasses(cfg: Settings, s1: State, listing: Option<Listing>, a: Answers, newRemote: Snapshot,
        busy: bool)
      ensures Finish(cfg, s1.(listing := listing), a, newRemote, busy) ==
              Finish(cfg, s1, a, newRemote, busy).(listing := listing)
    {
    }

    /** Concluding an iteration has nothing to do with the kept listing. */
    static lemma ConcludePasses(
      cfg: Settings, s1: State, listing: Option<Listing>, a: Answers, known: bool, pending: Changes,
      pendingRemote: Changes,
      seen: Snapshot)
      ensures Conclude(cfg, s1.(listing := listing), a, known, pending, pendingRemote, seen) ==
              Conclude(cfg, s1, a, known, pending, pendingRemote, seen).(listing := listing)
    {
      var busy := pending != map[] || pendingRemote != map[];
      var offered := Offered(cfg, s1, a, known, pending, pendingRemote, seen);
      OfferedPasses(cfg, s1, listing, a, known, pending, pendingRemote, seen);
      FinishPasses(cfg, offered.0, listing, a, offered.1, busy);
    }

    method ConcludeReading(a: Answers, uncertain: bool, localChanges: Changes, remoteChanges: Changes, seen: Snapshot)
      requires remoteKnown
      modifies this`local, this`remote, this`deferredLocal, this`deferredRemote, this`remoteKnown,
               this`remoteDelay, this`recoveryDue, this`backoffIndex
      ensures Now() == Conclude(cfg, old(Now()), a, !uncertain, localChanges, remoteChanges, seen)
    {
      if uncertain && localChanges != map[] && cfg.mode == TwoWay {
        remote := seen;
        HandOver(a);
        return;
      }
      ghost var verdict := Decide(cfg, !uncertain, a, localChanges, remoteChanges);
      ghost var s1 := Now();
      var newRemote := seen;
      if localChanges.Keys * remoteChanges.Keys != {} && cfg.mode == TwoWay {
        assert verdict == Conflict;
        HandOver(a);
      } else {
        assert verdict != Conflict && verdict != Distrust;
        newRemote := ApplyPermitted(a, localChanges, remoteChanges, newRemote);
      }
      assert (Now(), newRemote) == if verdict == Conflict
          then (ForgetDeferred(s1).(recoveryDue := Some(a.finished + 10.0)), seen)
                                   else Offer(cfg, s1, a, localChanges, remoteChanges, seen);
      FinishIteration(a, newRemote, localChanges != map[] || remoteChanges != map[]);
    }

    /** The full reconciliation owns everything deferred. */
    method HandOver(a: Answers)
      modifies this`deferredLocal, this`deferredRemote, this`recoveryDue
      ensures Now() == ForgetDeferred(old(Now())).(recoveryDue := Some(a.finished + 10.0))
    {
      deferredLocal, deferredRemote := map[], map[];
      recoveryDue := Some(a.finished + 10.0);
    }

    /** Compares a reading with the baseline, or makes it the baseline when that was unknown. */
    method NoteReading(a: Answers, reading: Reading, newRemote: Snapshot, ghost s: State)
        returns (remoteChanges: Changes)
      requires Now() == s.(local := LocalNow(s, a), listing := listing) && newRemote == Overlay(s.remote, reading)
      modifies this`remote, this`remoteKnown, this`lastRemoteScan, this`remoteDelay
      ensures Now() == AfterReading(cfg, s, a, reading).(listing := listing)
      ensures remoteChanges == PendingRemote(s, newRemote)
    {
      if reading.Full? { lastRemoteScan := a.scanned; }
      var uncertain := !remoteKnown;
      remoteChanges := deferredRemote + (if uncertain then map[] else Diff(remote, newRemote));
      if uncertain {
        remote, remoteKnown := newRemote, true;
        remoteDelay := BaseDelay(cfg) + a.firstJitter;
      }
    }

    /** Hands the permitted changes to apply; on failure everything stays deferred. */
    method ApplyPermitted(a: Answers, localChanges: Changes, remoteChanges: Changes, seen: Snapshot)
        returns (newRemote: Snapshot)
      requires remoteKnown
      modifies this`local, this`deferredLocal, this`deferredRemote, this`remoteKnown, this`recoveryDue
      ensures (Now(), newRemote) == Offer(cfg, old(Now()), a, localChanges, remoteChanges, seen)
    {
      newRemote := seen;
      var uploads, downloads := PermittedLocal(cfg, localChanges), PermittedRemote(cfg, remoteChanges);
      if uploads == map[] && downloads == map[] {
        deferredLocal, deferredRemote := map[], map[];
      } else if a.applySucceeds {
        newRemote := ReadBack(newRemote, uploads, a);
        local := WriteStates(local, DownloadedStates(downloads, a));
        recoveryDue := Some(a.finished + 10.0);
        deferredLocal, deferredRemote := map[], map[];
      } else {
        deferredLocal := deferredLocal + localChanges;
        deferredRemote := deferredRemote + remoteChanges;
      }
    }

    method FinishIteration(a: Answers, newRemote: Snapshot, busy: bool)
      modifies this`remote, this`remoteDelay, this`recoveryDue, this`backoffIndex
      ensures Now() == Finish(cfg, old(Now()), a, newRemote, busy)
    {
      remote := newRemote;
      if busy {
        backoffIndex := 0;
      } else {
        backoffIndex := if backoffIndex + 1 < |cfg.remoteBackoff| - 1 then backoffIndex + 1
            else |cfg.remoteBackoff| - 1;
      }
      if 0 <= backoffIndex < |cfg.remoteBackoff| { remoteDelay := cfg.remoteBackoff[backoffIndex] + a.lastJitter; }
      if recoveryDue.Some? && a.finished >= recoveryDue.value { recoveryDue := None; }
    }

    /** Refreshes only the uploaded paths; a failure makes the remote baseline unknown. */
    method ReadBack(newRemote: Snapshot, uploads: Changes, a: Answers) returns (r: Snapshot)
      modifies this`remoteKnown
      ensures r == AfterUpload(newRemote, uploads, a)
      ensures remoteKnown == (old(remoteKnown) && RefreshSucceeds(a, uploads))
    {
      if !RefreshSucceeds(a, uploads) { remoteKnown := false; }
      r := WriteStates(newRemote, ReadBackStates(uploads, a));
    }

    /** The loop: any number of iterations. */
    method RunLoop(answers: seq<Answers>)
      requires Valid()
      modifies this
      ensures Valid()
      ensures Run(Now(), trace) == RunFrom(cfg, old(Run(Now(), trace)), answers)
    {
      for i := 0 to |answers|
        invariant Valid()
        invariant RunFrom(cfg, Run(Now(), trace), answers[i..]) == RunFrom(cfg, old(Run(Now(), trace)), answers)
      {
        assert answers[i..][0] == answers[i] && answers[i..][1..] == answers[i+1..];
        Iterate(answers[i]);
      }
    }
  }
}
