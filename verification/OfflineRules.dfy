/** Offline and online-only rules of a streaming job. A path is the list of its components; the
    root, written "." in a rule, is the empty list. */
module OfflineRules {

  type Path = seq<string>

  datatype Result = Done | InvalidPath | HydrationFailed | RemovalFailed

  datatype Rules = Rules(offline: seq<Path>, onlineOnly: seq<Path>)

  /** A rule applies to its own path and to everything below it. */
  predicate RuleMatches(p: Path, rule: Path) {
    rule <= p
  }

  predicate StrictlyBelow(p: Path, ancestor: Path) {
    ancestor < p
  }

  /** The most specific matching rule decides; an online-only rule wins a tie. */
  ghost predicate Available(r: Rules, p: Path) {
    exists f :: f in r.offline && RuleMatches(p, f) && forall o :: o in r.onlineOnly && RuleMatches(p, o) ==> |o| < |f|
  }

  // ----- The lookup -----

  datatype Candidate = Candidate(depth: int, offline: bool)

  /** Order of the key (depth, not offline). */
  predicate KeyLess(a: Candidate, b: Candidate) {
    a.depth < b.depth || (a.depth == b.depth && a.offline && !b.offline)
  }

  /** Python's max: the first candidate no other exceeds. */
  method MaxCandidate(cs: seq<Candidate>) returns (best: Candidate)
    ensures cs == [] ==> best == Candidate(-1, false)
    ensures cs != [] ==> best in cs && forall c <- cs :: !KeyLess(best, c)
  {
    if cs == [] { return Candidate(-1, false); }
    best := cs[0];
    for i := 1 to |cs|
      invariant best in cs && forall j :: 0 <= j < i ==> !KeyLess(best, cs[j])
    {
      if KeyLess(best, cs[i]) { best := cs[i]; }
    }
  }

  method IsAvailableOffline(p: Path, offline: seq<Path>, onlineOnly: seq<Path>) returns (b: bool)
    ensures b == Available(Rules(offline, onlineOnly), p)
  {
    var candidates: seq<Candidate> := [];
    for i := 0 to |offline|
      invariant forall c <- candidates :: c.offline && exists k ::
                0 <= k < i && RuleMatches(p, offline[k]) && c.depth == |offline[k]|
      invariant forall k :: 0 <= k < i && RuleMatches(p, offline[k]) ==> Candidate(|offline[k]|, true) in candidates
    {
      if RuleMatches(p, offline[i]) { candidates := candidates + [Candidate(|offline[i]|, true)]; }
    }
    ghost var offlineCandidates := candidates;
    for i := 0 to |onlineOnly|
      invariant forall c <- candidates ::
                c in offlineCandidates
                || (!c.offline && exists k :: 0 <= k < i && RuleMatches(p, onlineOnly[k]) && c.depth == |onlineOnly[k]|)
      invariant forall c <- offlineCandidates :: c in candidates
      invariant forall k :: 0 <= k < i && RuleMatches(p, onlineOnly[k]) ==>
                Candidate(|onlineOnly[k]|, false) in candidates
    {
      if RuleMatches(p, onlineOnly[i]) { candidates := candidates + [Candidate(|onlineOnly[i]|, false)]; }
    }
    var best := MaxCandidate(candidates);
    b := best.offline;
    if b {
      var k :| 0 <= k < |offline| && RuleMatches(p, offline[k]) && best.depth == |offline[k]|;
      forall o | o in onlineOnly && RuleMatches(p, o) ensures |o| < |offline[k]| {
        assert !KeyLess(best, Candidate(|o|, false));
      }
      assert offline[k] in offline;
    }
  }

  // ----- Changing the rules -----

  /** The rules that are not strictly below p. */
  function NotBelow(rules: seq<Path>, p: Path): (r: seq<Path>)
    ensures forall x :: x in r <==> x in rules && !StrictlyBelow(x, p)
  {
    if rules == [] then []
    else (if StrictlyBelow(rules[0], p) then [] else [rules[0]]) + NotBelow(rules[1..], p)
  }

  /** The rules that are neither p nor below it. */
  function Outside(rules: seq<Path>, p: Path): (r: seq<Path>)
    ensures forall x :: x in r <==> x in rules && !RuleMatches(x, p)
  {
    if rules == [] then []
    else (if RuleMatches(rules[0], p) then [] else [rules[0]]) + Outside(rules[1..], p)
  }

  function KeepOffline(r: Rules, p: Path): Rules {
    if p == [] then Rules([[]], [])
    else
      var kept := NotBelow(r.offline, p);
      Rules(if p in kept then kept else kept + [p], Outside(r.onlineOnly, p))
  }

  ghost function Release(r: Rules, p: Path): Rules {
    if p == [] then Rules([], [])
    else
      var offline, online := Outside(r.offline, p), Outside(r.onlineOnly, p);
      Rules(offline, if Available(Rules(offline, online), p) then online + [p] else online)
  }

  /** After keeping p offline, p and everything below is available, and nothing else changed. */
  lemma KeepOfflineMeans(r: Rules, p: Path, q: Path)
    ensures Available(KeepOffline(r, p), q) <==> if RuleMatches(q, p) then true else Available(r, q)
  {
    var r' := KeepOffline(r, p);
    if RuleMatches(q, p) {
      assert p in r'.offline;
      forall o | o in r'.onlineOnly && RuleMatches(q, o) ensures |o| < |p| { Comparable(q, o, p); }
    } else {
      forall x | RuleMatches(q, x) ensures !RuleMatches(x, p) { PrefixTransitive(p, x, q); }
      forall f | RuleMatches(q, f) ensures f in r'.offline <==> f in r.offline { }
      forall o | RuleMatches(q, o) ensures o in r'.onlineOnly <==> o in r.onlineOnly { }
      SameLookup(r, r', q);
    }
  }

  /** After releasing p, p and everything below is online-only, and nothing else changed. */
  lemma ReleaseMeans(r: Rules, p: Path, q: Path)
    ensures Available(Release(r, p), q) <==> if RuleMatches(q, p) then false else Available(r, q)
  {
    var r' := Release(r, p);
    var cut := Rules(Outside(r.offline, p), Outside(r.onlineOnly, p));
    if RuleMatches(q, p) {
      forall f | f in r'.offline && RuleMatches(q, f) ensures |f| < |p| && RuleMatches(p, f) { Comparable(q, f, p); }
      if p != [] && !Available(cut, p) { ReleasedByParent(cut, p, q); }
    } else {
      forall x | RuleMatches(q, x) ensures !RuleMatches(x, p) { PrefixTransitive(p, x, q); }
      forall f | RuleMatches(q, f) ensures f in r'.offline <==> f in r.offline { }
      forall o | RuleMatches(q, o) ensures o in r'.onlineOnly <==> o in r.onlineOnly { }
      SameLookup(r, r', q);
    }
  }

  /** Without rules at or below p, everything below p shares p's answer. */
  lemma ReleasedByParent(cut: Rules, p: Path, q: Path)
    requires RuleMatches(q, p) && !Available(cut, p)
    requires forall f :: f in cut.offline ==> !RuleMatches(f, p)
    requires forall o :: o in cut.onlineOnly ==> !RuleMatches(o, p)
    ensures !Available(cut, q)
  {
    if Available(cut, q) {
      var f :| f in cut.offline && RuleMatches(q, f) && forall o :: o in cut.onlineOnly && RuleMatches(q, o) ==>
          |o| < |f|;
      Comparable(q, f, p);
      forall o | o in cut.onlineOnly && RuleMatches(p, o) ensures |o| < |f| { PrefixTransitive(o, p, q); }
    }
  }

  lemma SameLookup(r: Rules, r': Rules, q: Path)
    requires forall f :: RuleMatches(q, f) ==> (f in r'.offline <==> f in r.offline)
    requires forall o :: RuleMatches(q, o) ==> (o in r'.onlineOnly <==> o in r.onlineOnly)
    ensures Available(r', q) <==> Available(r, q)
  {
  }

  lemma PrefixTransitive(a: Path, b: Path, c: Path)
    requires b <= c
    ensures a <= b ==> a <= c
  {
  }

  /** Two prefixes of one path: the one that does not extend the other is shorter. */
  lemma Comparable(q: Path, x: Path, p: Path)
    requires x <= q && p <= q
    ensures !(p <= x) ==> |x| < |p| && x <= p
  {
    if |p| <= |x| {
      assert p == q[..|p|] == x[..|p|];
    } else {
      assert x == q[..|x|] == p[..|x|];
    }
  }

  // ----- Verified rules -----

  function VerifiedAfter(verified: set<Path>, configured: seq<Path>, p: Path, available: bool): set<Path> {
    if available && p in configured then
      (if p == [] then {} else set x | x in verified && !StrictlyBelow(x, p)) + {p}
    else if !available then set x | x in verified && x in configured
    else verified
  }

  // ----- Any sequence of calls -----

  /** hydrates: the files could be made available; removes: pins and cached files could be removed. */
  datatype Request = Request(path: Path, available: bool, hydrates: bool, removes: bool)

  /** Whether a call changes the rules: a path without "..", and a completed hydration when one is
      needed. A failing hydration is rolled back, a failing removal is not. */
  predicate Takes(q: Request) {
    ".." !in q.path && (q.available ==> q.hydrates)
  }

  /** Whether a call returns normally. */
  predicate Succeeds(q: Request) {
    Takes(q) && (!q.available ==> q.removes)
  }

  datatype Store = Store(rules: Rules, verified: set<Path>)

  ghost function Apply(s: Store, q: Request): Store {
    if !Takes(q) then s
    else
      var rules := if q.available then KeepOffline(s.rules, q.path) else Release(s.rules, q.path);
      Store(rules, if Succeeds(q) then VerifiedAfter(s.verified, rules.offline, q.path, q.available) else s.verified)
  }

  ghost function ApplyAll(s: Store, calls: seq<Request>): Store {
    if calls == [] then s else Apply(ApplyAll(s, calls[..|calls|-1]), calls[|calls|-1])
  }

  /** The flag of the last call on p or an ancestor that changed the rules; false without one. */
  function LastFlag(calls: seq<Request>, p: Path): bool {
    if calls == [] then false
    else
      var last := calls[|calls|-1];
      if Takes(last) && RuleMatches(p, last.path) then last.available else LastFlag(calls[..|calls|-1], p)
  }

  /** The flag of the last successful one. */
  function LastSuccess(calls: seq<Request>, p: Path): bool {
    if calls == [] then false
    else
      var last := calls[|calls|-1];
      if Succeeds(last) && RuleMatches(p, last.path) then last.available else LastSuccess(calls[..|calls|-1], p)
  }

  ghost predicate Disjoint(r: Rules) {
    forall x :: !(x in r.offline && x in r.onlineOnly)
  }

  ghost predicate VerifiedConfigured(s: Store) {
    forall v <- s.verified :: v in s.rules.offline
  }

  const EMPTY: Store := Store(Rules([], []), {})

  /** The two compact lists mean exactly the last word spoken about each path, and never share a rule. */
  lemma {:induction false} RulesRefineLastFlag(calls: seq<Request>)
    ensures var s := ApplyAll(EMPTY, calls);
            (forall p :: Available(s.rules, p) <==> LastFlag(calls, p)) && Disjoint(s.rules)
  {
    if calls != [] {
      var before, last := calls[..|calls|-1], calls[|calls|-1];
      RulesRefineLastFlag(before);
      var s := ApplyAll(EMPTY, before);
      if Takes(last) {
        forall p ensures Available(Apply(s, last).rules, p) <==> LastFlag(calls, p) {
          if last.available { KeepOfflineMeans(s.rules, last.path, p); } else { ReleaseMeans(s.rules, last.path, p); }
        }
        StaysDisjoint(s, last);
      }
    }
  }

  lemma StaysDisjoint(s: Store, q: Request)
    requires Disjoint(s.rules)
    ensures Disjoint(Apply(s, q).rules)
    ensures VerifiedConfigured(s) && (Takes(q) ==> Succeeds(q)) ==> VerifiedConfigured(Apply(s, q))
  {
  }

  /** As long as no release fails half-way, the last word is that of the last successful call, and
      every verified rule is configured. */
  lemma {:induction false} SuccessfulCallsDecide(calls: seq<Request>)
    requires forall q <- calls :: Takes(q) ==> Succeeds(q)
    ensures var s := ApplyAll(EMPTY, calls);
            (forall p :: Available(s.rules, p) <==> LastSuccess(calls, p)) && VerifiedConfigured(s)
  {
    RulesRefineLastFlag(calls);
    if calls != [] {
      var before, last := calls[..|calls|-1], calls[|calls|-1];
      assert last in calls && forall q <- before :: q in calls;
      SuccessfulCallsDecide(before);
      RulesRefineLastFlag(before);
      StaysDisjoint(ApplyAll(EMPTY, before), last);
      forall p ensures LastFlag(calls, p) == LastSuccess(calls, p) {
        assert Available(ApplyAll(EMPTY, before).rules, p) <==> LastFlag(before, p);
      }
    }
  }

  /** A release that fails half-way changes nothing a caller can see if and only if nothing at or below
      its path was available, and leaves the verified rules configured if and only if none was verified there. */
  lemma FailedReleaseExactly(s: Store, q: Request)
    requires Takes(q) && !Succeeds(q) && VerifiedConfigured(s)
    ensures (forall p :: Available(Apply(s, q).rules, p) <==> Available(s.rules, p)) <==>
            (forall p :: RuleMatches(p, q.path) ==> !Available(s.rules, p))
    ensures VerifiedConfigured(Apply(s, q)) <==> forall v <- s.verified :: !RuleMatches(v, q.path)
  {
    forall p
      ensures Available(Apply(s, q).rules, p) <==> if RuleMatches(p, q.path) then false else Available(s.rules, p) {
      ReleaseMeans(s.rules, q.path, p);
    }
  }

  /** Kept, then released in vain: the path is no longer available although no call succeeded in
      releasing it, and it stays verified without a rule. */
  lemma FailedReleaseShows(p: Path)
    requires ".." !in p
    ensures var calls := [Request(p, true, true, true), Request(p, false, true, false)];
            var s := ApplyAll(EMPTY, calls);
            && !Available(s.rules, p) && LastSuccess(calls, p)
            && p in s.verified && p !in s.rules.offline
  {
    var keep, release := Request(p, true, true, true), Request(p, false, true, false);
    var calls := [keep, release];
    assert calls[..1] == [keep] && [keep][..0] == [];
    RulesRefineLastFlag([keep]);
    var s := ApplyAll(EMPTY, [keep]);
    assert s == Apply(EMPTY, keep) && p in s.verified && VerifiedConfigured(s);
    RulesRefineLastFlag(calls);
    FailedReleaseExactly(s, release);
    ReleaseMeans(s.rules, p, p);
    assert LastSuccess([keep], p);
  }

  /** After a successful call the path itself is verified, or nothing at or below it is. */
  lemma VerifiedFollows(s: Store, q: Request)
    requires Succeeds(q) && forall v <- s.verified :: v in s.rules.offline
    ensures q.available ==> q.path in Apply(s, q).verified
    ensures !q.available ==> forall v <- Apply(s, q).verified :: !RuleMatches(v, q.path)
  {
  }

  // ----- The job -----

  class OfflineJob {
    var offlinePaths: seq<Path>
    var onlineOnlyPaths: seq<Path>

    ghost function Now(): Rules
      reads this
    {
      Rules(offlinePaths, onlineOnlyPaths)
    }

    constructor ()
      ensures Now() == Rules([], [])
    {
      offlinePaths, onlineOnlyPaths := [], [];
    }

    /** The first part of a call: the rules are set at once, and the lists found are remembered. */
    method BeginOffline(relative: Path, available: bool)
        returns (previousRules: seq<Path>, previousOnlineOnly: seq<Path>)
      modifies this
      ensures Rules(previousRules, previousOnlineOnly) == old(Now())
      ensures Now() == if available then KeepOffline(old(Now()), relative) else Release(old(Now()), relative)
    {
      previousRules, previousOnlineOnly := offlinePaths, onlineOnlyPaths;
      if available {
        if relative == [] {
          offlinePaths := [[]];
          onlineOnlyPaths := [];
        } else {
          offlinePaths := NotBelow(previousRules, relative);
          if relative !in offlinePaths { offlinePaths := offlinePaths + [relative]; }
          onlineOnlyPaths := Outside(previousOnlineOnly, relative);
        }
      } else if relative == [] {
        offlinePaths, onlineOnlyPaths := [], [];
      } else {
        offlinePaths := Outside(offlinePaths, relative);
        onlineOnlyPaths := Outside(onlineOnlyPaths, relative);
        var still := IsAvailableOffline(relative, offlinePaths, onlineOnlyPaths);
        if still { onlineOnlyPaths := onlineOnlyPaths + [relative]; }
      }
    }

    /** The last part of a failed hydration: the lists found at the beginning come back. */
    method RollBack(previousRules: seq<Path>, previousOnlineOnly: seq<Path>)
      modifies this
      ensures Now() == Rules(previousRules, previousOnlineOnly)
    {
      offlinePaths, onlineOnlyPaths := previousRules, previousOnlineOnly;
    }

    /** A whole call that no other call overlaps. A failed hydration puts both lists back; a failed
        removal of pins or cached files does not. */
    method SetOffline(relative: Path, available: bool, hydrates: bool, removes: bool) returns (r: Result)
      modifies this
      ensures Now() == Apply(Store(old(Now()), {}), Request(relative, available, hydrates, removes)).rules
      ensures r == if ".." in relative then InvalidPath
                   else if available && !hydrates then HydrationFailed
                   else if !available && !removes then RemovalFailed
                   else Done
    {
      if ".." in relative { return InvalidPath; }
      var previousRules, previousOnlineOnly := BeginOffline(relative, available);
      if available && !hydrates {
        RollBack(previousRules, previousOnlineOnly);
        return HydrationFailed;
      }
      return if available || removes then Done else RemovalFailed;
    }
  }
}
