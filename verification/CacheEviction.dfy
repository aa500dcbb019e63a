/** The streaming cache: oldest unused files are removed until the quota is met, never a pinned,
    dirty or recently used one. */
module CacheEviction {
  import opened Basics
  import opened Sequences

  type Path = string

  // ----- Pins -----

  /** A marker that cannot be read or parsed, or the paths it lists; None is an entry without one. */
  datatype Marker = Unreadable | Listing(entries: seq<Option<string>>)

  /** The components of a relative path; empty ones and dots do not count. */
  function Parts(path: string): seq<string> {
    Proper(Split(path, '/'))
  }

  function Proper(pieces: seq<string>): (r: seq<string>)
    ensures forall x :: x in r <==> x in pieces && x != "" && x != "."
  {
    if pieces == [] then []
    else (if pieces[0] == "" || pieces[0] == "." then [] else [pieces[0]]) + Proper(pieces[1..])
  }

  /** The canonical spelling of a relative path. */
  function AsPosix(path: string): Path {
    if Parts(path) == [] then "." else Join(Parts(path), '/')
  }

  lemma {:induction false} ProperSame(pieces: seq<string>)
    requires "" !in pieces && "." !in pieces
    ensures Proper(pieces) == pieces
  {
    if pieces != [] { ProperSame(pieces[1..]); }
  }

  /** However a pin spells a path, it protects the one file with those components. */
  lemma PinnedHoweverSpelled(entry: string, parts: seq<string>)
    requires parts != [] && forall x <- parts :: x != "" && x != "." && '/' !in x
    ensures AsPosix(entry) == Join(parts, '/') <==> Parts(entry) == parts
  {
    SplitJoin(parts, '/');
    if Parts(entry) == [] {
      SplitNone(".", '/');
      assert "." in Split(".", '/');
    } else {
      SplitJoin(Parts(entry), '/');
    }
  }

  predicate Confined(entry: Option<string>) {
    entry.Some? && entry.value != "" && entry.value[0] != '/' && ".." !in Parts(entry.value)
  }

  predicate Usable(marker: Marker) {
    marker.Listing? && forall entry <- marker.entries :: Confined(entry)
  }

  predicate Names(entry: Option<string>, p: Path) {
    entry.Some? && AsPosix(entry.value) == p
  }

  predicate Lists(entries: seq<Option<string>>, p: Path) {
    exists entry <- entries :: Names(entry, p)
  }

  /** One doubtful marker or entry makes all pins unknown. */
  method PinnedPaths(markers: Option<seq<Marker>>) returns (pinned: Option<set<Path>>)
    ensures pinned.None? <==> markers.None? || exists marker <- markers.value :: !Usable(marker)
    ensures pinned.Some? ==> forall p :: p in pinned.value <==>
            exists marker <- markers.value :: Lists(marker.entries, p)
  {
    if markers.None? { return None; }
    var all := markers.value;
    var protected: set<Path> := {};
    for i := 0 to |all|
      invariant forall j :: 0 <= j < i ==> Usable(all[j])
      invariant forall p :: p in protected <==> exists j :: 0 <= j < i && Lists(all[j].entries, p)
    {
      if all[i].Unreadable? {
        assert !Usable(all[i]);
        return None;
      }
      var listed := ListedPaths(all[i].entries);
      if listed.None? {
        assert !Usable(all[i]);
        return None;
      }
      protected := protected + listed.value;
    }
    assert forall p, marker :: marker in all && Lists(marker.entries, p) ==>
        exists j :: 0 <= j < |all| && Lists(all[j].entries, p);
    return Some(protected);
  }

  method ListedPaths(entries: seq<Option<string>>) returns (listed: Option<set<Path>>)
    ensures listed.Some? <==> forall entry <- entries :: Confined(entry)
    ensures listed.Some? ==> forall p :: p in listed.value <==> Lists(entries, p)
  {
    var paths: set<Path> := {};
    for i := 0 to |entries|
      invariant forall j :: 0 <= j < i ==> Confined(entries[j])
      invariant forall p :: p in paths <==> Lists(entries[..i], p)
    {
      if !Confined(entries[i]) { return None; }
      paths := paths + {AsPosix(entries[i].value)};
      forall p ensures Lists(entries[..i+1], p) <==> Lists(entries[..i], p) || AsPosix(entries[i].value) == p {
        ListsMore(entries, i, p);
      }
    }
    assert entries[..|entries|] == entries;
    return Some(paths);
  }

  lemma ListsMore(entries: seq<Option<string>>, i: nat, p: Path)
    requires i < |entries|
    ensures Lists(entries[..i+1], p) <==> Lists(entries[..i], p) || Names(entries[i], p)
  {
    assert entries[..i+1] == entries[..i] + [entries[i]];
  }

  // ----- What the manager sees -----

  /** Whether a write-back record exists; its look-up may fail. */
  datatype Record = Absent | Present | Doubtful

  datatype Look = Link | Other | Failed | File(size: nat, used: real, record: Record)

  datatype Item = Item(path: Path, look: Look)

  /** A second look at a candidate just before its removal. */
  datatype Recheck = Failing | Now(link: bool, used: real, record: Record, removable: bool)

  datatype Request = Request(maxBytes: int, minFree: int, mounted: bool, now: real, inactivity: real)

  /** The cache directory; scanFails: the listing breaks off after these items. */
  datatype Cache = Cache(exists_: bool, markers: Option<seq<Marker>>, items: seq<Item>, scanFails: bool,
                         free: Option<nat>, recheck: Path -> Recheck)

  datatype Candidate = Candidate(used: real, size: nat, path: Path)

  datatype Cleanup = Cleanup(examined: nat, released: nat, releasedFiles: nat, skippedPinned: nat,
      skippedUncertain: nat,
                             planned: nat, plannedFiles: nat)

  function Inactivity(asked: real): real {
    if asked < 60.0 then 60.0 else asked
  }

  predicate Recent(q: Request, used: real) {
    q.mounted && q.now - used < Inactivity(q.inactivity)
  }

  predicate Eligible(q: Request, pinned: set<Path>, item: Item) {
    item.look.File? && item.path !in pinned && item.look.record == Absent && !Recent(q, item.look.used)
  }

  function Total(items: seq<Item>): nat {
    if items == [] then 0
    else Total(items[..|items|-1]) + (var last := items[|items|-1].look; if last.File? then last.size else 0)
  }

  function Candidates(q: Request, pinned: set<Path>, items: seq<Item>): seq<Candidate> {
    if items == [] then []
    else
      var last := items[|items|-1];
      Candidates(q, pinned, items[..|items|-1]) +
      if Eligible(q, pinned, last) then [Candidate(last.look.used, last.look.size, last.path)] else []
  }

  function PinnedFiles(pinned: set<Path>, items: seq<Item>): nat {
    if items == [] then 0
    else
      var last := items[|items|-1];
      PinnedFiles(pinned, items[..|items|-1]) + if last.look.File? && last.path in pinned then 1 else 0
  }

  /** Neither a file nor a link, such as a directory. */
  function Others(items: seq<Item>): nat {
    if items == [] then 0 else Others(items[..|items|-1]) + if items[|items|-1].look.Other? then 1 else 0
  }

  /** Links, failures, and unpinned files with a write-back record or recent use. */
  function Doubtful(q: Request, pinned: set<Path>, items: seq<Item>): nat {
    if items == [] then 0
    else
      var last := items[|items|-1];
      Doubtful(q, pinned, items[..|items|-1]) +
      if last.look.Link? || last.look.Failed?
          || (last.look.File? && last.path !in pinned && !Eligible(q, pinned, last)) then 1 else 0
  }

  /** The first pass over the files. */
  method Collect(q: Request, pinned: set<Path>, items: seq<Item>)
    returns (candidates: seq<Candidate>, total: nat, skippedPinned: nat, skippedUncertain: nat)
    ensures candidates == Candidates(q, pinned, items) && total == Total(items)
    ensures skippedPinned == PinnedFiles(pinned, items) && skippedUncertain == Doubtful(q, pinned, items)
    ensures skippedPinned + skippedUncertain + |candidates| + Others(items) == |items|
  {
    candidates, total, skippedPinned, skippedUncertain := [], 0, 0, 0;
    for i := 0 to |items|
      invariant candidates == Candidates(q, pinned, items[..i]) && total == Total(items[..i])
      invariant skippedPinned == PinnedFiles(pinned, items[..i]) && skippedUncertain == Doubtful(q, pinned, items[..i])
      invariant skippedPinned + skippedUncertain + |candidates| + Others(items[..i]) == i
    {
      assert items[..i+1][..i] == items[..i];
      match items[i].look
      case Link => skippedUncertain := skippedUncertain + 1;
      case Other =>
      case Failed => skippedUncertain := skippedUncertain + 1;
      case File(size, used, record) =>
        total := total + size;
        if items[i].path in pinned { skippedPinned := skippedPinned + 1; }
        else if record != Absent { skippedUncertain := skippedUncertain + 1; }
        else if Recent(q, used) { skippedUncertain := skippedUncertain + 1; }
        else { candidates := candidates + [Candidate(used, size, items[i].path)]; }
    }
    assert items[..|items|] == items;
  }

  // ----- Oldest first -----

  /** The order of paths, which only breaks ties. */
  type PathOrder = (Path, Path) -> bool

  ghost predicate TotalOrder(before: PathOrder) {
    && (forall a, b :: !(before(a, b) && before(b, a)))
    && (forall a, b :: before(a, b) || before(b, a) || a == b)
    && (forall a, b, c :: before(a, b) && before(b, c) ==> before(a, c))
  }

  predicate Older(before: PathOrder, a: Candidate, b: Candidate) {
    a.used < b.used || (a.used == b.used && (a.size < b.size || (a.size == b.size && before(a.path, b.path))))
  }

  function Insert(before: PathOrder, c: Candidate, sorted: seq<Candidate>): seq<Candidate> {
    if sorted == [] || !Older(before, sorted[0], c) then [c] + sorted
    else [sorted[0]] + Insert(before, c, sorted[1..])
  }

  function OldestFirst(before: PathOrder, candidates: seq<Candidate>): seq<Candidate> {
    if candidates == [] then [] else Insert(before, candidates[0], OldestFirst(before, candidates[1..]))
  }

  ghost predicate Sorted(before: PathOrder, s: seq<Candidate>) {
    forall i, j :: 0 <= i < j < |s| ==> !Older(before, s[j], s[i])
  }

  /** No element of s comes before c. */
  ghost predicate NoneOlder(before: PathOrder, s: seq<Candidate>, c: Candidate) {
    forall x <- s :: !Older(before, x, c)
  }

  lemma {:induction false} InsertElements(before: PathOrder, c: Candidate, sorted: seq<Candidate>)
    ensures multiset(Insert(before, c, sorted)) == multiset(sorted) + multiset{c}
    ensures forall x :: x in Insert(before, c, sorted) <==> x == c || x in sorted
  {
    if sorted != [] && Older(before, sorted[0], c) {
      InsertElements(before, c, sorted[1..]);
      assert sorted == [sorted[0]] + sorted[1..];
    }
  }

  lemma SortedCons(before: PathOrder, c: Candidate, rest: seq<Candidate>)
    requires Sorted(before, rest) && NoneOlder(before, rest, c)
    ensures Sorted(before, [c] + rest)
  {
  }

  lemma OlderOrNot(before: PathOrder, a: Candidate, b: Candidate, c: Candidate)
    requires TotalOrder(before) && !Older(before, b, a) && !Older(before, c, b)
    ensures !Older(before, c, a)
  {
  }

  lemma {:induction false} InsertSorts(before: PathOrder, c: Candidate, sorted: seq<Candidate>)
    requires TotalOrder(before) && Sorted(before, sorted)
    ensures Sorted(before, Insert(before, c, sorted))
  {
    if sorted == [] {
    } else if !Older(before, sorted[0], c) {
      forall x <- sorted ensures !Older(before, x, c) {
        if x != sorted[0] { OlderOrNot(before, c, sorted[0], x); }
      }
      SortedCons(before, c, sorted);
    } else {
      InsertSorts(before, c, sorted[1..]);
      InsertElements(before, c, sorted[1..]);
      forall x <- Insert(before, c, sorted[1..]) ensures !Older(before, x, sorted[0]) {
        if x in sorted[1..] {
          assert !Older(before, x, sorted[0]);
        } else {
          assert x == c;
          NotBoth(before, sorted[0], c);
        }
      }
      SortedCons(before, sorted[0], Insert(before, c, sorted[1..]));
    }
  }

  lemma NotBoth(before: PathOrder, a: Candidate, b: Candidate)
    requires TotalOrder(before) && Older(before, a, b)
    ensures !Older(before, b, a)
  {
  }

  lemma {:induction false} OldestFirstSorts(before: PathOrder, candidates: seq<Candidate>)
    requires TotalOrder(before)
    ensures Sorted(before, OldestFirst(before, candidates))
    ensures multiset(OldestFirst(before, candidates)) == multiset(candidates)
  {
    if candidates != [] {
      OldestFirstSorts(before, candidates[1..]);
      InsertSorts(before, candidates[0], OldestFirst(before, candidates[1..]));
      InsertElements(before, candidates[0], OldestFirst(before, candidates[1..]));
      assert candidates == [candidates[0]] + candidates[1..];
    }
  }

  // ----- Removing -----

  /** The second look clears the candidate. */
  predicate Cleared(q: Request, e: Cache, pinned: set<Path>, path: Path) {
    var r := e.recheck(path);
    r.Now? && !r.link && path !in pinned && r.record == Absent && !Recent(q, r.used)
  }

  /** The candidate is planned for removal, or also removed. */
  predicate Good(q: Request, e: Cache, pinned: set<Path>, apply: bool, c: Candidate) {
    Cleared(q, e, pinned, c.path) && (apply ==> e.recheck(c.path).removable)
  }

  function Chosen(q: Request, e: Cache, pinned: set<Path>, apply: bool, s: seq<Candidate>): seq<Candidate> {
    if s == [] then []
    else (if Good(q, e, pinned, apply, s[0]) then [s[0]] else []) + Chosen(q, e, pinned, apply, s[1..])
  }

  function Bytes(s: seq<Candidate>): nat {
    if s == [] then 0 else s[0].size + Bytes(s[1..])
  }

  lemma {:induction false} BytesConcat(a: seq<Candidate>, b: seq<Candidate>)
    ensures Bytes(a + b) == Bytes(a) + Bytes(b)
  {
    if a == [] {
      assert a + b == b;
    } else {
      BytesConcat(a[1..], b);
      assert (a + b)[1..] == a[1..] + b;
    }
  }

  lemma {:induction false} ChosenMore(q: Request, e: Cache, pinned: set<Path>, apply: bool, s: seq<Candidate>,
      c: Candidate)
    ensures Chosen(q, e, pinned, apply, s + [c]) ==
            Chosen(q, e, pinned, apply, s) + if Good(q, e, pinned, apply, c) then [c] else []
  {
    if s == [] {
      assert [c][1..] == [];
    } else {
      ChosenMore(q, e, pinned, apply, s[1..], c);
      assert (s + [c])[1..] == s[1..] + [c];
    }
  }

  /** What one more candidate adds. */
  lemma ChosenNext(q: Request, e: Cache, pinned: set<Path>, apply: bool, sorted: seq<Candidate>, k: nat)
    requires k < |sorted|
    ensures var taken, next := Chosen(q, e, pinned, apply, sorted[..k]), Chosen(q, e, pinned, apply, sorted[..k+1]);
            if Good(q, e, pinned, apply, sorted[k]) then
              next == taken + [sorted[k]] && Bytes(next) == Bytes(taken) + sorted[k].size
            else next == taken
  {
    assert sorted[..k+1] == sorted[..k] + [sorted[k]];
    ChosenMore(q, e, pinned, apply, sorted[..k], sorted[k]);
    BytesConcat(Chosen(q, e, pinned, apply, sorted[..k]), [sorted[k]]);
    assert Bytes([sorted[k]]) == sorted[k].size;
  }

  /** taken is the good part of the shortest prefix of the sorted candidates that reaches the need. */
  ghost predicate Shortest(q: Request, e: Cache, pinned: set<Path>, apply: bool, sorted: seq<Candidate>, need: int,
      taken: seq<Candidate>) {
    exists k :: ReachesAt(q, e, pinned, apply, sorted, need, taken, k)
  }

  ghost predicate ReachesAt(q: Request, e: Cache, pinned: set<Path>, apply: bool, sorted: seq<Candidate>, need: int,
      taken: seq<Candidate>, k: int) {
    && 0 <= k <= |sorted| && taken == Chosen(q, e, pinned, apply, sorted[..k])
    && (k == |sorted| || Bytes(taken) >= need)
    && forall m :: 0 <= m < k ==> Bytes(Chosen(q, e, pinned, apply, sorted[..m])) < need
  }

  /** The bytes to give back. */
  function Need(q: Request, total: nat, free: nat): (r: nat)
    ensures r >= total - q.maxBytes && r >= q.minFree - free
    ensures r == 0 || r == total - q.maxBytes || r == q.minFree - free
  {
    var most := if total - q.maxBytes > q.minFree - free then total - q.maxBytes else q.minFree - free;
    if most < 0 then 0 else most
  }

  /** taken holds what was removed, or with apply off what would be. */
  method Evict(q: Request, e: Cache, pinned: set<Path>, apply: bool, sorted: seq<Candidate>, need: nat)
    returns (taken: seq<Candidate>, released: nat, planned: nat, plannedFiles: nat, skippedUncertain: nat,
        ghost looked: nat)
    ensures ReachesAt(q, e, pinned, apply, sorted, need, taken, looked)
    ensures released == if apply then Bytes(taken) else 0
    ensures var cleared := Chosen(q, e, pinned, false, sorted[..looked]);
            planned == Bytes(cleared) && plannedFiles == |cleared|
    ensures skippedUncertain + |taken| == looked
  {
    taken, released, planned, plannedFiles, skippedUncertain, looked := [], 0, 0, 0, 0, 0;
    ghost var cleared: seq<Candidate> := [];
    for k := 0 to |sorted|
      invariant taken == Chosen(q, e, pinned, apply, sorted[..k])
      invariant released == if apply then Bytes(taken) else 0
      invariant cleared == Chosen(q, e, pinned, false, sorted[..k])
                && planned == Bytes(cleared) && plannedFiles == |cleared|
      invariant skippedUncertain + |taken| == k == looked
      invariant forall m :: 0 <= m < k ==> Bytes(Chosen(q, e, pinned, apply, sorted[..m])) < need
    {
      if (if apply then released else planned) >= need {
        return;
      }
      var c := sorted[k];
      ChosenNext(q, e, pinned, apply, sorted, k);
      ChosenNext(q, e, pinned, false, sorted, k);
      if !Cleared(q, e, pinned, c.path) {
        skippedUncertain := skippedUncertain + 1;
      } else {
        planned := planned + c.size;
        cleared := cleared + [c];
        plannedFiles := plannedFiles + 1;
        if apply {
          if e.recheck(c.path).removable {
            released := released + c.size;
            taken := taken + [c];
          } else {
            skippedUncertain := skippedUncertain + 1;
          }
        } else {
          taken := taken + [c];
        }
      }
      looked := k + 1;
    }
    assert sorted[..|sorted|] == sorted;
  }

  // ----- The whole clean-up -----

  ghost predicate PinsKnown(markers: Option<seq<Marker>>) {
    markers.Some? && forall marker <- markers.value :: Usable(marker)
  }

  ghost predicate PinsAre(markers: Option<seq<Marker>>, pinned: set<Path>) {
    PinsKnown(markers) && forall p :: p in pinned <==> exists marker <- markers.value :: Lists(marker.entries, p)
  }

  /** The limit is off, or something about the cache is unknown. */
  ghost predicate HandsOff(q: Request, e: Cache) {
    q.maxBytes <= 0 || !e.exists_ || !PinsKnown(e.markers) || e.scanFails || e.free.None?
  }

  ghost function Eviction(before: PathOrder, q: Request, e: Cache, pinned: set<Path>): seq<Candidate> {
    OldestFirst(before, Candidates(q, pinned, e.items))
  }

  /** What is reported when nothing is looked at, when the looking breaks off, and at the end. */
  ghost predicate Reports(before: PathOrder, q: Request, e: Cache, pinned: set<Path>, apply: bool,
      taken: seq<Candidate>, looked: nat, r: Cleanup) {
    if q.maxBytes <= 0 || !e.exists_ then r == Cleanup(0, 0, 0, 0, 0, 0, 0)
    else if !PinsKnown(e.markers) then r == Cleanup(0, 0, 0, 0, 1, 0, 0)
    else if e.scanFails then r == Cleanup(Total(e.items), 0, 0, 0, Doubtful(q, pinned, e.items) + 1, 0, 0)
    else if e.free.None? then r == Cleanup(Total(e.items), 0, 0, PinnedFiles(pinned, e.items),
        Doubtful(q, pinned, e.items) + 1, 0, 0)
    else
      var sorted := Eviction(before, q, e, pinned);
      && looked <= |sorted| && r.examined == Total(e.items)
      && r.released == (if apply then Bytes(taken) else 0) && r.releasedFiles == (if apply then |taken| else 0)
      && r.skippedPinned == PinnedFiles(pinned, e.items)
      && r.skippedUncertain == Doubtful(q, pinned, e.items) + looked - |taken|
      && var cleared := Chosen(q, e, pinned, false, sorted[..looked]);
         r.planned == Bytes(cleared) && r.plannedFiles == |cleared|
  }

  /** apply off makes it a recommendation; looked candidates were looked at a second time. */
  method Enforce(before: PathOrder, q: Request, e: Cache, apply: bool)
    returns (result: Cleanup, taken: seq<Candidate>, ghost pinned: set<Path>, ghost looked: nat)
    requires TotalOrder(before)
    ensures HandsOff(q, e) ==> taken == []
    ensures PinsKnown(e.markers) && q.maxBytes > 0 && e.exists_ ==> PinsAre(e.markers, pinned)
    ensures !HandsOff(q, e) ==>
              ReachesAt(q, e, pinned, apply, Eviction(before, q, e, pinned), Need(q, Total(e.items), e.free.value),
                  taken, looked)
    ensures Reports(before, q, e, pinned, apply, taken, looked, result)
  {
    taken, pinned, looked := [], {}, 0;
    if q.maxBytes <= 0 || !e.exists_ { result := Cleanup(0, 0, 0, 0, 0, 0, 0); return; }
    var pins := PinnedPaths(e.markers);
    if pins.None? { result := Cleanup(0, 0, 0, 0, 1, 0, 0); return; }
    pinned := pins.value;
    var candidates, total, skippedPinned, skippedUncertain := Collect(q, pins.value, e.items);
    if e.scanFails { result := Cleanup(total, 0, 0, 0, skippedUncertain + 1, 0, 0); return; }
    if e.free.None? { result := Cleanup(total, 0, 0, skippedPinned, skippedUncertain + 1, 0, 0); return; }
    var released, planned, plannedFiles, uncertain;
    taken, released, planned, plannedFiles, uncertain, looked :=
      Evict(q, e, pins.value, apply, OldestFirst(before, candidates), Need(q, total, e.free.value));
    result := Cleanup(total, released, if apply then |taken| else 0, skippedPinned, skippedUncertain + uncertain,
        planned, plannedFiles);
  }

  // ----- What is promised -----

  lemma {:induction false} CandidatesAreEligible(q: Request, pinned: set<Path>, items: seq<Item>)
    ensures forall c :: c in Candidates(q, pinned, items) <==>
                        exists i <- items :: Eligible(q, pinned, i) && c == Candidate(i.look.used, i.look.size, i.path)
  {
    if items != [] {
      var n := |items| - 1;
      CandidatesAreEligible(q, pinned, items[..n]);
      assert items == items[..n] + [items[n]];
    }
  }

  lemma {:induction false} ChosenAre(q: Request, e: Cache, pinned: set<Path>, apply: bool, s: seq<Candidate>)
    ensures forall c :: c in Chosen(q, e, pinned, apply, s) <==> c in s && Good(q, e, pinned, apply, c)
  {
    if s != [] { ChosenAre(q, e, pinned, apply, s[1..]); }
  }

  lemma InSorted(before: PathOrder, candidates: seq<Candidate>, c: Candidate)
    requires TotalOrder(before)
    ensures c in OldestFirst(before, candidates) <==> c in candidates
  {
    OldestFirstSorts(before, candidates);
    assert c in multiset(OldestFirst(before, candidates)) <==> c in multiset(candidates);
  }

  /** A removed file was listed, is not pinned, had no write-back record and, when mounted, was not
      recently used, on both looks. */
  lemma EvictionIsSafe(before: PathOrder, q: Request, e: Cache, pinned: set<Path>, apply: bool, need: int,
      taken: seq<Candidate>, c: Candidate)
    requires TotalOrder(before) && Shortest(q, e, pinned, apply, Eviction(before, q, e, pinned), need, taken)
             && c in taken
    ensures exists i <- e.items :: i.path == c.path && Eligible(q, pinned, i)
    ensures c.path !in pinned && Cleared(q, e, pinned, c.path)
    ensures Item(c.path, File(c.size, c.used, Absent)) in e.items
    ensures q.mounted ==> q.now - c.used >= 60.0 && q.now - c.used >= q.inactivity
    ensures var look := e.recheck(c.path);
            && look.Now? && !look.link && look.record == Absent && (apply ==> look.removable)
            && (q.mounted ==> q.now - look.used >= 60.0 && q.now - look.used >= q.inactivity)
  {
    var sorted := Eviction(before, q, e, pinned);
    var k :| ReachesAt(q, e, pinned, apply, sorted, need, taken, k);
    ChosenAre(q, e, pinned, apply, sorted[..k]);
    assert c in sorted;
    InSorted(before, Candidates(q, pinned, e.items), c);
    CandidatesAreEligible(q, pinned, e.items);
    var i :| i in e.items && Eligible(q, pinned, i) && c == Candidate(i.look.used, i.look.size, i.path);
    assert i == Item(c.path, File(c.size, c.used, Absent));
  }

  /** The candidates are gone through by their last use, then by size, then by path. */
  lemma EvictionAscends(before: PathOrder, q: Request, e: Cache, pinned: set<Path>, i: nat, j: nat)
    requires TotalOrder(before) && i < j < |Eviction(before, q, e, pinned)|
    ensures var a, b := Eviction(before, q, e, pinned)[i], Eviction(before, q, e, pinned)[j];
            && a.used <= b.used
            && (a.used == b.used ==> a.size <= b.size)
            && (a.used == b.used && a.size == b.size ==> !before(b.path, a.path))
  {
    OldestFirstSorts(before, Candidates(q, pinned, e.items));
  }

  /** If the need is not met, every file has gone that was listed and, on both looks, not pinned, without
      write-back record and not recently used. */
  lemma ShortfallTakesAll(before: PathOrder, q: Request, e: Cache, pinned: set<Path>, apply: bool, need: int,
      taken: seq<Candidate>, c: Candidate)
    requires TotalOrder(before) && Shortest(q, e, pinned, apply, Eviction(before, q, e, pinned), need, taken)
    requires Bytes(taken) < need && c.path !in pinned && Item(c.path, File(c.size, c.used, Absent)) in e.items
    requires q.mounted ==> q.now - c.used >= 60.0 && q.now - c.used >= q.inactivity
    requires var look := e.recheck(c.path);
             && look.Now? && !look.link && look.record == Absent && (apply ==> look.removable)
             && (q.mounted ==> q.now - look.used >= 60.0 && q.now - look.used >= q.inactivity)
    ensures c in taken
  {
    var sorted := Eviction(before, q, e, pinned);
    EvictionIsMinimal(q, e, pinned, apply, sorted, need, taken);
    ChosenAre(q, e, pinned, apply, sorted);
    CandidatesAreEligible(q, pinned, e.items);
    assert Eligible(q, pinned, Item(c.path, File(c.size, c.used, Absent)));
    InSorted(before, Candidates(q, pinned, e.items), c);
  }

  // ----- What is counted -----

  /** The pins are known if and only if every marker can be read and lists only paths that are not empty, not
      absolute and have no component "..". */
  lemma PinsKnownExactly(markers: seq<Marker>)
    ensures PinsKnown(Some(markers)) <==>
            forall marker <- markers :: marker.Listing? && forall entry <- marker.entries ::
              entry.Some? && entry.value != "" && entry.value[0] != '/' && ".." !in Split(entry.value, '/')
  {
  }

  /** The total counts the size of every file, pinned or not, and of nothing else. */
  lemma {:induction false} TotalAdds(a: seq<Item>, b: seq<Item>, item: Item)
    ensures Total(a + b) == Total(a) + Total(b)
    ensures Total([item]) == match item.look case File(size, _, _) => size case _ => 0
  {
    assert [item][..0] == [];
    if b == [] {
      assert a + b == a;
    } else {
      TotalAdds(a, b[..|b|-1], item);
      assert (a + b)[..|a + b|-1] == a + b[..|b|-1];
    }
  }

  /** Where in the list something holds. */
  function Places(items: seq<Item>, holds: Item -> bool): set<int> {
    set i | 0 <= i < |items| && holds(items[i])
  }

  lemma OneMorePlace(items: seq<Item>, holds: Item -> bool)
    requires items != []
    ensures |Places(items, holds)| == |Places(items[..|items|-1], holds)| + if holds(items[|items|-1]) then 1 else 0
  {
    var n, front := |items| - 1, items[..|items|-1];
    assert forall i :: 0 <= i < n ==> front[i] == items[i];
    if holds(items[n]) {
      assert Places(items, holds) == Places(front, holds) + {n};
    } else {
      assert Places(items, holds) == Places(front, holds);
    }
  }

  /** Counted as pinned are exactly the files with a pin; as uncertain the links, the failures and the
      files without a pin that have a write-back record or were used lately. */
  lemma {:induction false} CountsExactly(q: Request, pinned: set<Path>, items: seq<Item>)
    ensures PinnedFiles(pinned, items) == |Places(items, (item: Item) => item.look.File? && item.path in pinned)|
    ensures Doubtful(q, pinned, items) == |Places(items, (item: Item) => DoubtfulLook(q, pinned, item))|
  {
    if items != [] {
      CountsExactly(q, pinned, items[..|items|-1]);
      OneMorePlace(items, (item: Item) => item.look.File? && item.path in pinned);
      OneMorePlace(items, (item: Item) => DoubtfulLook(q, pinned, item));
    }
  }

  predicate DoubtfulLook(q: Request, pinned: set<Path>, item: Item) {
    match item.look
    case Link => true
    case Failed => true
    case Other => false
    case File(_, used, record) =>
      item.path !in pinned &&
      (record != Absent || (q.mounted && (q.now - used < 60.0 || q.now - used < q.inactivity)))
  }

  /** What is taken and kept, among the good candidates: the oldest go first. */
  lemma OldestGoFirst(before: PathOrder, q: Request, e: Cache, pinned: set<Path>, apply: bool, need: int,
      taken: seq<Candidate>, gone: Candidate, kept: Candidate)
    requires TotalOrder(before) && Shortest(q, e, pinned, apply, Eviction(before, q, e, pinned), need, taken)
    requires gone in taken && kept !in taken && kept in Eviction(before, q, e, pinned)
             && Good(q, e, pinned, apply, kept)
    ensures gone.used <= kept.used
    ensures gone.used == kept.used ==> gone.size <= kept.size
    ensures gone.used == kept.used && gone.size == kept.size ==> !before(kept.path, gone.path)
  {
    var sorted := Eviction(before, q, e, pinned);
    var k :| ReachesAt(q, e, pinned, apply, sorted, need, taken, k);
    ChosenAre(q, e, pinned, apply, sorted[..k]);
    OldestFirstSorts(before, Candidates(q, pinned, e.items));
    var i :| 0 <= i < k && sorted[..k][i] == gone;
    assert kept !in sorted[..k];
    forall m | 0 <= m < k ensures sorted[m] != kept { assert sorted[..k][m] in sorted[..k]; }
    var j :| 0 <= j < |sorted| && sorted[j] == kept;
    assert j >= k;
  }

  /** Either the need is met, and would not be without the last file taken, or every good candidate is taken. */
  lemma EvictionIsMinimal(q: Request, e: Cache, pinned: set<Path>, apply: bool, sorted: seq<Candidate>, need: int,
      taken: seq<Candidate>)
    requires Shortest(q, e, pinned, apply, sorted, need, taken)
    ensures Bytes(taken) >= need || taken == Chosen(q, e, pinned, apply, sorted)
    ensures taken != [] ==> Bytes(taken[..|taken|-1]) < need && Bytes(taken) < need + taken[|taken|-1].size
  {
    var k :| ReachesAt(q, e, pinned, apply, sorted, need, taken, k);
    assert sorted[..|sorted|] == sorted;
    if taken != [] {
      var m := LastGood(q, e, pinned, apply, sorted, k);
      var front := taken[..|taken|-1];
      assert taken == front + [taken[|taken|-1]];
      BytesConcat(front, [taken[|taken|-1]]);
      assert Bytes([taken[|taken|-1]]) == taken[|taken|-1].size;
    }
  }

  lemma {:induction false} LastGood(q: Request, e: Cache, pinned: set<Path>, apply: bool, sorted: seq<Candidate>,
      k: nat) returns (m: nat)
    requires k <= |sorted| && Chosen(q, e, pinned, apply, sorted[..k]) != []
    ensures m < k
    ensures var taken := Chosen(q, e, pinned, apply, sorted[..k]);
            Chosen(q, e, pinned, apply, sorted[..m]) == taken[..|taken|-1]
    decreases k
  {
    assert k > 0;
    m := k - 1;
    assert sorted[..k] == sorted[..m] + [sorted[m]];
    ChosenMore(q, e, pinned, apply, sorted[..m], sorted[m]);
    if !Good(q, e, pinned, apply, sorted[m]) { m := LastGood(q, e, pinned, apply, sorted, m); }
  }

  /** Meeting the need brings the cache under its limit and leaves the space that must stay free. */
  lemma QuotaMet(q: Request, total: nat, free: nat, released: nat)
    requires released >= Need(q, total, free)
    ensures total - released <= q.maxBytes && free + released >= q.minFree
  {
  }

  /** There is only one shortest prefix. */
  lemma ShortestIsUnique(q: Request, e: Cache, pinned: set<Path>, apply: bool, sorted: seq<Candidate>, need: int,
      a: seq<Candidate>, b: seq<Candidate>)
    requires Shortest(q, e, pinned, apply, sorted, need, a) && Shortest(q, e, pinned, apply, sorted, need, b)
    ensures a == b
  {
    var i :| ReachesAt(q, e, pinned, apply, sorted, need, a, i);
    var j :| ReachesAt(q, e, pinned, apply, sorted, need, b, j);
  }

  lemma {:induction false} ChosenAlike(q: Request, e: Cache, pinned: set<Path>, s: seq<Candidate>)
    requires forall c <- s :: Cleared(q, e, pinned, c.path) ==> e.recheck(c.path).removable
    ensures Chosen(q, e, pinned, true, s) == Chosen(q, e, pinned, false, s)
  {
    if s != [] { ChosenAlike(q, e, pinned, s[1..]); }
  }

  /** When no removal fails, the recommendation is exactly what enforcement removes. */
  lemma PlanIsWhatIsRemoved(q: Request, e: Cache, pinned: set<Path>, sorted: seq<Candidate>, need: int,
      removed: seq<Candidate>, plan: seq<Candidate>)
    requires Shortest(q, e, pinned, true, sorted, need, removed) && Shortest(q, e, pinned, false, sorted, need, plan)
    requires forall c <- sorted :: Cleared(q, e, pinned, c.path) ==> e.recheck(c.path).removable
    ensures removed == plan
  {
    forall k | 0 <= k <= |sorted|
      ensures Chosen(q, e, pinned, true, sorted[..k]) == Chosen(q, e, pinned, false, sorted[..k]) {
      ChosenAlike(q, e, pinned, sorted[..k]);
    }
    var i :| ReachesAt(q, e, pinned, true, sorted, need, removed, i);
    var j :| ReachesAt(q, e, pinned, false, sorted, need, plan, j);
  }

  /** When nothing changes between the two looks, what goes is a prefix of the sorted candidates. */
  lemma {:induction false} AllChosen(q: Request, e: Cache, pinned: set<Path>, apply: bool, s: seq<Candidate>)
    requires forall c <- s :: Good(q, e, pinned, apply, c)
    ensures Chosen(q, e, pinned, apply, s) == s
  {
    if s != [] { AllChosen(q, e, pinned, apply, s[1..]); }
  }

  lemma UndisturbedEviction(q: Request, e: Cache, pinned: set<Path>, apply: bool, sorted: seq<Candidate>, need: int,
      taken: seq<Candidate>)
    requires Shortest(q, e, pinned, apply, sorted, need, taken) && forall c <- sorted :: Good(q, e, pinned, apply, c)
    ensures taken <= sorted && (Bytes(taken) >= need || taken == sorted)
    ensures forall m :: 0 <= m < |taken| ==> Bytes(sorted[..m]) < need
  {
    var k :| ReachesAt(q, e, pinned, apply, sorted, need, taken, k);
    forall m | 0 <= m <= k ensures Chosen(q, e, pinned, apply, sorted[..m]) == sorted[..m] {
      AllChosen(q, e, pinned, apply, sorted[..m]);
    }
  }
}
