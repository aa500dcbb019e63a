/** One iteration of the change monitor as a function of its state and of what the outside world
    answers: file events, provider scans, targeted checks, transfers and refreshes. */
module MonitorSteps {
  import opened Basics

  type Path = string

  datatype FileState = FileState(size: int, modified: string)

  type Snapshot = map<Path, FileState>

  /** The changed paths of one side, each with its `deleted` flag. */
  type Changes = map<Path, bool>

  datatype Mode = TwoWay | DownloadOnly | UploadOnly | VirtualDrive

  datatype Side = Local | Remote

  function Lookup(m: Snapshot, p: Path): Option<FileState> {
    if p in m then Some(m[p]) else None
  }

  /** changes_between for one side. */
  function Diff(previous: Snapshot, current: Snapshot): (c: Changes)
    ensures forall p :: p in c <==> Lookup(previous, p) != Lookup(current, p)
    ensures forall p <- c :: c[p] <==> p !in current
  {
    map p | p in previous.Keys + current.Keys && Lookup(previous, p) != Lookup(current, p) :: p !in current
  }

  /** One file's state written into a snapshot, or removed from it. */
  function Put(m: Snapshot, states: map<Path, Option<FileState>>): (r: Snapshot)
    ensures forall p :: Lookup(r, p) == if p in states then states[p] else Lookup(m, p)
  {
    map p | p in m.Keys + states.Keys && (if p in states then states[p].Some? else true) ::
      if p in states then states[p].value else m[p]
  }

  // ----- What the outside world answers in one iteration -----

  datatype LocalObservation =
    | Quiet
    | Rescan(snapshot: Snapshot)                        // queue overflow or directory topology change
    | Touched(states: map<Path, Option<FileState>>)     // a batch of paths, each re-read
    | Polled(snapshot: Snapshot)                        // no kernel events: the poll timer expired

  // ----- Provider listings -----

  /** How long a listing is served again without asking the provider. */
  const CACHE_SECONDS := 5.0

  /** A listing of the whole provider side; it was asked for and stamped at these times, and shows
      what the provider held at some moment between. */
  datatype Listing = Listing(snapshot: Snapshot, asked: real, stamp: real)

  /** What other monitors of the same provider folder, or a change of the options that the listings
      are kept under, did to the kept listing since. */
  datatype Others = Leave | Forget | Refresh(listing: Listing)

  type Span = r: real | r >= 0.0

  /** One call for a listing, and what the provider answers if it is asked; None: it fails. */
  datatype Scan = Scan(others: Others, asked: real, answer: Option<Snapshot>, took: Span)

  function Kept(listing: Option<Listing>, scan: Scan): Option<Listing> {
    match scan.others
    case Leave => listing
    case Forget => None
    case Refresh(newer) => Some(newer)
  }

  /** The kept listing is young enough to be served again. */
  predicate Serves(listing: Option<Listing>, scan: Scan) {
    var kept := Kept(listing, scan);
    kept.Some? && scan.asked - kept.value.stamp <= CACHE_SECONDS
  }

  function ListingOf(listing: Option<Listing>, scan: Scan): Option<Listing> {
    if Serves(listing, scan) then Kept(listing, scan)
    else match scan.answer
      case None => None
      case Some(snapshot) => Some(Listing(snapshot, scan.asked, scan.asked + scan.took))
  }

  /** remote_snapshot: a listing, or None when the provider fails. */
  function ScanOf(listing: Option<Listing>, scan: Scan): Option<Reading> {
    match ListingOf(listing, scan)
    case None => None
    case Some(found) => Some(Full(found, scan.asked))
  }

  /** The listing that is kept afterwards. */
  function KeptAfter(listing: Option<Listing>, scan: Scan): Option<Listing> {
    var found := ListingOf(listing, scan);
    if found.Some? then found else Kept(listing, scan)
  }

  datatype Answers = Answers(
    enabled: bool,
    observed: LocalObservation,
    isFile: set<Path>,                      // changed local paths that are regular files
    pathStates: Snapshot,                   // targeted checks that succeed
    first: Scan,
    second: Scan,
    applySucceeds: bool,
    refreshed: Snapshot,                    // provider states read back after an upload
    refreshedBeforeFailure: set<Path>,
    localAfter: Snapshot,                   // local states read back after a download
    now: real, scanned: real, finished: real, firstJitter: real, lastJitter: real)

  /** A provider reading: states asked for in this iteration, or a listing that was called for at that time. */
  datatype Reading = Targeted(states: Snapshot) | Full(listing: Listing, called: real)

  datatype Event =
    | Reported(side: Side, paths: set<Path>)
    | Reconciled
    | Apply(local: Changes, remote: Changes, ok: bool, known: bool, remembered: Snapshot, reading: Reading)
    | Dropped(dropSide: Side, dropPaths: set<Path>)

  // ----- State -----

  datatype Settings = Settings(mode: Mode, remoteBackoff: seq<real>, remotePollSeconds: real)

  datatype State = State(
    local: Snapshot, remote: Snapshot, deferredLocal: Changes, deferredRemote: Changes, remoteKnown: bool,
    lastRemoteScan: real, remoteDelay: real, recoveryDue: Option<real>, backoffIndex: int, listing: Option<Listing>)

  function BaseDelay(cfg: Settings): real {
    if cfg.remoteBackoff != [] then cfg.remoteBackoff[0] else cfg.remotePollSeconds
  }

  // ----- Phase 1: local changes -----

  function LocalNow(s: State, a: Answers): Snapshot {
    match a.observed
    case Quiet => s.local
    case Rescan(snapshot) => snapshot
    case Touched(states) => Put(s.local, states)
    case Polled(snapshot) => snapshot
  }

  /** Deferred local changes overlaid by the new ones. */
  function PendingLocal(s: State, a: Answers): Changes {
    s.deferredLocal + Diff(s.local, LocalNow(s, a))
  }

  // ----- Phase 2: reading the provider -----

  function FullDue(s: State, a: Answers): bool {
    a.now >= s.lastRemoteScan + s.remoteDelay
  }

  predicate RemoteDue(s: State, a: Answers) {
    || PendingLocal(s, a) != map[]
    || FullDue(s, a)
    || (s.recoveryDue.Some? && a.now >= s.recoveryDue.value)
  }

  predicate WantsTargeted(s: State, a: Answers) {
    var pending := PendingLocal(s, a);
    && pending != map[] && !FullDue(s, a) && s.remoteKnown
    && forall p <- pending :: !pending[p] && p in a.isFile
  }

  predicate TargetedSucceeds(s: State, a: Answers) {
    WantsTargeted(s, a) && PendingLocal(s, a).Keys <= a.pathStates.Keys
  }

  function FirstScan(s: State, a: Answers): Option<Reading> {
    if WantsTargeted(s, a) then None else ScanOf(s.listing, a.first)
  }

  /** The kept listing when the second full scan is called for. */
  function ListingBetween(s: State, a: Answers): Option<Listing> {
    if WantsTargeted(s, a) then s.listing else KeptAfter(s.listing, a.first)
  }

  /** Local changes are waiting for a reading and the full scan is not due anyway. */
  predicate ScansAgain(s: State, a: Answers) {
    PendingLocal(s, a) != map[] && !FullDue(s, a)
  }

  function SecondScan(s: State, a: Answers): Option<Reading> {
    if ScansAgain(s, a) then ScanOf(ListingBetween(s, a), a.second) else None
  }

  /** A targeted check when it suffices, else a full scan; one more full scan after a failure
      that local changes are waiting for. */
  function ReadProvider(s: State, a: Answers): Option<Reading> {
    if TargetedSucceeds(s, a) then Some(Targeted(map p | p in PendingLocal(s, a) :: a.pathStates[p]))
    else if FirstScan(s, a).Some? then FirstScan(s, a)
    else SecondScan(s, a)
  }

  /** The listing that is kept after the provider was read. */
  function ListingAfter(s: State, a: Answers): Option<Listing> {
    if TargetedSucceeds(s, a) then s.listing
    else if FirstScan(s, a).Some? || !ScansAgain(s, a) then ListingBetween(s, a)
    else KeptAfter(ListingBetween(s, a), a.second)
  }

  function Overlay(remote: Snapshot, reading: Reading): Snapshot {
    match reading
    case Targeted(states) => remote + states
    case Full(listing, _) => listing.snapshot
  }

  // ----- Phase 3: settling -----

  function PendingRemote(s: State, newRemote: Snapshot): Changes {
    s.deferredRemote + RemoteDiff(s, newRemote)
  }

  function PermittedLocal(cfg: Settings, pending: Changes): Changes {
    if cfg.mode == DownloadOnly then map[] else pending
  }

  function PermittedRemote(cfg: Settings, pending: Changes): Changes {
    if cfg.mode == UploadOnly then map[] else pending
  }

  /** The paths whose deletion flag is unset. */
  function Existing(c: Changes): set<Path> {
    set p | p in c && !c[p]
  }

  predicate RefreshSucceeds(a: Answers, uploaded: Changes) {
    Existing(uploaded) <= a.refreshed.Keys
  }

  /** The provider states read back after an upload; a failing refresh may stop part-way. */
  function ReadBackStates(uploaded: Changes, a: Answers): map<Path, Option<FileState>> {
    var done := if RefreshSucceeds(a, uploaded) then uploaded.Keys else uploaded.Keys * a.refreshedBeforeFailure;
    map p | p in done && (uploaded[p] || p in a.refreshed) :: if uploaded[p] then None else Some(a.refreshed[p])
  }

  function AfterUpload(newRemote: Snapshot, uploaded: Changes, a: Answers): Snapshot {
    Put(newRemote, ReadBackStates(uploaded, a))
  }

  /** The local states written back after a download. */
  function AfterDownload(local: Snapshot, downloaded: Changes, a: Answers): Snapshot {
    Put(local, DownloadedStates(downloaded, a))
  }

  function DownloadedStates(downloaded: Changes, a: Answers): map<Path, Option<FileState>> {
    map p | p in downloaded :: Lookup(a.localAfter, p)
  }

  function ForgetDeferred(s: State): State {
    s.(deferredLocal := map[], deferredRemote := map[])
  }

  /** The provider failed: keep the local changes for later and back off. */
  function PutOff(cfg: Settings, s: State, a: Answers): State {
    var delay := Min(300.0, Max(s.remoteDelay * 2.0, cfg.remotePollSeconds));
    s.(local := LocalNow(s, a),
       deferredLocal := s.deferredLocal + PendingLocal(s, a),
       remoteDelay := delay,
       recoveryDue := if s.recoveryDue.Some? then Some(a.finished + delay) else None)
  }

  /** The end of an iteration that read the provider. */
  function Finish(cfg: Settings, s: State, a: Answers, newRemote: Snapshot, busy: bool): State {
    var index := if busy then 0
                 else if s.backoffIndex + 1 < |cfg.remoteBackoff| - 1 then s.backoffIndex + 1
                 else |cfg.remoteBackoff| - 1;
    s.(remote := newRemote,
       backoffIndex := index,
       remoteDelay := if 0 <= index < |cfg.remoteBackoff| then cfg.remoteBackoff[index] + a.lastJitter
           else s.remoteDelay,
       recoveryDue := if s.recoveryDue.Some? && a.finished >= s.recoveryDue.value then None else s.recoveryDue)
  }

  /** How an iteration that read the provider goes on. */
  datatype Verdict =
    | Distrust   // the baseline was unknown and local changes wait: full reconciliation
    | Conflict   // both sides changed a path: full reconciliation
    | Idle       // nothing the mode permits
    | Transfer   // apply succeeded
    | Refuse     // apply failed

  function Decide(cfg: Settings, known: bool, a: Answers, pending: Changes, pendingRemote: Changes): Verdict {
    if !known && pending != map[] && cfg.mode == TwoWay then Distrust
    else if pending.Keys * pendingRemote.Keys != {} && cfg.mode == TwoWay then Conflict
    else if PermittedLocal(cfg, pending) == map[] && PermittedRemote(cfg, pendingRemote) == map[] then Idle
    else if a.applySucceeds then Transfer
    else Refuse
  }

  /** The state once a reading is in: an unknown baseline becomes known. */
  function AfterReading(cfg: Settings, s: State, a: Answers, reading: Reading): State {
    s.(local := LocalNow(s, a),
       remote := if s.remoteKnown then s.remote else Overlay(s.remote, reading),
       remoteKnown := true,
       remoteDelay := if s.remoteKnown then s.remoteDelay else BaseDelay(cfg) + a.firstJitter,
       lastRemoteScan := if reading.Full? then a.scanned else s.lastRemoteScan)
  }

  /** Handing the permitted changes to apply: the new state and provider snapshot. */
  function Offer(cfg: Settings, s1: State, a: Answers, pending: Changes, pendingRemote: Changes,
      seen: Snapshot): (State, Snapshot) {
    var uploads, downloads := PermittedLocal(cfg, pending), PermittedRemote(cfg, pendingRemote);
    if uploads == map[] && downloads == map[] then (ForgetDeferred(s1), seen)
    else if a.applySucceeds then (Transferred(s1, a, uploads, downloads), AfterUpload(seen, uploads, a))
    else (s1.(deferredLocal := s1.deferredLocal + pending, deferredRemote := s1.deferredRemote + pendingRemote), seen)
  }

  /** A conflict is left to the full reconciliation; otherwise the changes are offered. */
  function Offered(
    cfg: Settings, s1: State, a: Answers, known: bool, pending: Changes, pendingRemote: Changes,
    seen: Snapshot): (State, Snapshot)
  {
    if Decide(cfg, known, a, pending, pendingRemote) == Conflict then
      (ForgetDeferred(s1).(recoveryDue := Some(a.finished + 10.0)), seen)
    else Offer(cfg, s1, a, pending, pendingRemote, seen)
  }

  /** Reconcile, apply or drop what is pending, then remember what the provider showed. */
  function Conclude(
    cfg: Settings, s1: State, a: Answers, known: bool, pending: Changes, pendingRemote: Changes,
    newRemote: Snapshot): State
  {
    if Decide(cfg, known, a, pending, pendingRemote) == Distrust then
      ForgetDeferred(s1).(remote := newRemote, recoveryDue := Some(a.finished + 10.0))
    else
      var offered := Offered(cfg, s1, a, known, pending, pendingRemote, newRemote);
      Finish(cfg, offered.0, a, offered.1, pending != map[] || pendingRemote != map[])
  }

  function Settle(cfg: Settings, s: State, a: Answers, reading: Reading): State {
    var newRemote := Overlay(s.remote, reading);
    Conclude(cfg, AfterReading(cfg, s, a, reading), a, s.remoteKnown, PendingLocal(s, a), PendingRemote(s, newRemote),
        newRemote)
  }

  function Transferred(s1: State, a: Answers, uploads: Changes, downloads: Changes): State {
    ForgetDeferred(s1).(local := AfterDownload(s1.local, downloads, a),
                        remoteKnown := RefreshSucceeds(a, uploads),
                        recoveryDue := Some(a.finished + 10.0))
  }

  /** Changes whose direction the mode forbids are let go. */
  function Drops(cfg: Settings, pending: Changes, pendingRemote: Changes): seq<Event> {
    if cfg.mode == DownloadOnly then [Dropped(Local, pending.Keys)]
    else if cfg.mode == UploadOnly then [Dropped(Remote, pendingRemote.Keys)]
    else []
  }

  /** What the outside world sees of the settling. */
  function SettleEvents(cfg: Settings, s: State, a: Answers, reading: Reading): seq<Event> {
    var pending, newRemote := PendingLocal(s, a), Overlay(s.remote, reading);
    var pendingRemote := PendingRemote(s, newRemote);
    var call := Apply(PermittedLocal(cfg, pending), PermittedRemote(cfg, pendingRemote), a.applySucceeds,
                      s.remoteKnown, s.remote, reading);
    match Decide(cfg, s.remoteKnown, a, pending, pendingRemote)
    case Distrust => [Reconciled]
    case Conflict => [Reconciled]
    case Idle => Drops(cfg, pending, pendingRemote)
    case Transfer => [call] + Drops(cfg, pending, pendingRemote)
    case Refuse => [call]
  }

  function RemoteDiff(s: State, newRemote: Snapshot): Changes {
    if s.remoteKnown then Diff(s.remote, newRemote) else map[]
  }

  /** The state after one iteration of the loop. */
  function NextState(cfg: Settings, s: State, a: Answers): State {
    if !a.enabled then s
    else if a.observed.Rescan? then ForgetDeferred(s).(local := LocalNow(s, a), recoveryDue := Some(a.finished + 10.0))
    else if !RemoteDue(s, a) then s.(local := LocalNow(s, a))
    else match ReadProvider(s, a)
      case None => PutOff(cfg, s, a).(listing := ListingAfter(s, a))
      case Some(reading) => Settle(cfg, s, a, reading).(listing := ListingAfter(s, a))
  }

  /** What one iteration does to the outside world. */
  function Events(cfg: Settings, s: State, a: Answers): seq<Event> {
    if !a.enabled then []
    else if a.observed.Rescan? then [LocalReport(s, a)] + [Reconciled]
    else if !RemoteDue(s, a) then [LocalReport(s, a)]
    else match ReadProvider(s, a)
      case None => [LocalReport(s, a)]
      case Some(reading) => [LocalReport(s, a)] + [RemoteReport(s, reading)] + SettleEvents(cfg, s, a, reading)
  }

  function LocalReport(s: State, a: Answers): Event {
    Reported(Local, Diff(s.local, LocalNow(s, a)).Keys)
  }

  function RemoteReport(s: State, reading: Reading): Event {
    Reported(Remote, RemoteDiff(s, Overlay(s.remote, reading)).Keys)
  }

  /** The state after the startup snapshots; what changed between them is deferred. */
  function Start(before: Snapshot, after: Snapshot, remote: Option<Snapshot>, now: real, delay: real,
      listing: Option<Listing>): State {
    State(after, if remote.Some? then remote.value else map[], Diff(before, after), map[], remote.Some?, now, delay,
        None, 0, listing)
  }
}
