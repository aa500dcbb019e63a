/** What the offline rules mean path by path: which prefixes of a path decide, what keeping and
    releasing do to the paths below, above and beside. */
module OfflinePaths {
  import opened OfflineRules

  /** A path is available if and only if one of its prefixes is an offline rule and neither that prefix nor
      a longer one is an online-only rule. */
  lemma MostSpecificDecides(r: Rules, q: Path)
    ensures Available(r, q) <==>
            exists n :: 0 <= n <= |q| && q[..n] in r.offline && forall m :: n <= m <= |q| ==> q[..m] !in r.onlineOnly
  {
    if Available(r, q) {
      var f :| f in r.offline && RuleMatches(q, f) && forall o :: o in r.onlineOnly && RuleMatches(q, o) ==> |o| < |f|;
      assert q[..|f|] == f;
      forall m | |f| <= m <= |q| ensures q[..m] !in r.onlineOnly { assert RuleMatches(q, q[..m]); }
    }
    if n :| 0 <= n <= |q| && q[..n] in r.offline && forall m :: n <= m <= |q| ==> q[..m] !in r.onlineOnly {
      assert RuleMatches(q, q[..n]);
      forall o | o in r.onlineOnly && RuleMatches(q, o) ensures |o| < n { assert q[..|o|] == o; }
    }
  }

  /** Neither p itself nor below it: the paths part somewhere, or q is shorter. */
  predicate Beside(q: Path, p: Path) {
    |q| < |p| || exists i :: 0 <= i < |p| && q[i] != p[i]
  }

  lemma BesideExactly(q: Path, p: Path)
    ensures Beside(q, p) <==> !RuleMatches(q, p)
    ensures Beside(q, p) <==> forall tail :: q != p + tail
  {
    if !Beside(q, p) {
      assert p == q[..|p|];
      assert q == p + q[|p|..];
    }
  }

  /** Keeping a path makes it and everything below it available. */
  lemma KeepsSubtree(r: Rules, p: Path, tail: Path)
    ensures Available(KeepOffline(r, p), p + tail)
  {
    KeepOfflineMeans(r, p, p + tail);
    BesideExactly(p + tail, p);
  }

  /** Releasing a path makes it and everything below it unavailable. */
  lemma ReleasesSubtree(r: Rules, p: Path, tail: Path)
    ensures !Available(Release(r, p), p + tail)
  {
    ReleaseMeans(r, p, p + tail);
    BesideExactly(p + tail, p);
  }

  /** A release leaves an online-only rule behind if and only if what the path lies in was available. */
  lemma ReleasesByRule(r: Rules, p: Path)
    ensures p in Release(r, p).onlineOnly <==> p != [] && Available(r, p[..|p|-1])
  {
    if p != [] {
      var parent := p[..|p|-1];
      var cut := Rules(Outside(r.offline, p), Outside(r.onlineOnly, p));
      assert |parent| < |p|;
      BesideExactly(parent, p);
      forall x ensures RuleMatches(p, x) && !RuleMatches(x, p) <==> RuleMatches(parent, x) { }
      SameLookup(r, cut, parent);
      assert Available(cut, p) <==> Available(cut, parent);
    }
  }

  /** Neither changes anything beside or above that path. */
  lemma LeavesTheRest(r: Rules, p: Path, q: Path)
    requires Beside(q, p)
    ensures Available(KeepOffline(r, p), q) <==> Available(r, q)
    ensures Available(Release(r, p), q) <==> Available(r, q)
  {
    BesideExactly(q, p);
    KeepOfflineMeans(r, p, q);
    ReleaseMeans(r, p, q);
  }

  /** A rule for a path that is beside q, or longer than q, has no say about q. */
  lemma ForeignRule(r: Rules, rule: Path, q: Path)
    requires Beside(q, rule)
    ensures Available(r.(offline := r.offline + [rule]), q) <==> Available(r, q)
    ensures Available(r.(onlineOnly := r.onlineOnly + [rule]), q) <==> Available(r, q)
  {
    BesideExactly(q, rule);
    SameLookup(r, r.(offline := r.offline + [rule]), q);
    SameLookup(r, r.(onlineOnly := r.onlineOnly + [rule]), q);
  }

  // ----- Runs of calls -----

  /** The i-th call changed the rules of path q. */
  predicate Decided(calls: seq<Request>, i: nat, q: Path)
    requires i < |calls|
  {
    Takes(calls[i]) && !Beside(q, calls[i].path)
  }

  /** The i-th call made q available, and no later one changed it. */
  ghost predicate MadeAvailable(calls: seq<Request>, i: nat, q: Path) {
    && i < |calls| && calls[i].available && Decided(calls, i, q)
    && forall j :: i < j < |calls| ==> !Decided(calls, j, q)
  }

  /** After any calls, one after another, a path is available if and only if some call made it so and no
      later one changed it. */
  lemma LastCallDecides(calls: seq<Request>, q: Path)
    ensures Available(ApplyAll(EMPTY, calls).rules, q) <==> exists i: nat :: MadeAvailable(calls, i, q)
  {
    RulesRefineLastFlag(calls);
    LastFlagDecides(calls, q);
  }

  lemma {:induction false} LastFlagDecides(calls: seq<Request>, q: Path)
    ensures LastFlag(calls, q) <==> exists i: nat :: MadeAvailable(calls, i, q)
  {
    if calls != [] {
      var n, before := |calls| - 1, calls[..|calls|-1];
      LastFlagDecides(before, q);
      BesideExactly(q, calls[n].path);
      if Decided(calls, n, q) {
        assert forall i: nat :: MadeAvailable(calls, i, q) ==> i == n;
        if calls[n].available { assert MadeAvailable(calls, n, q); }
      } else {
        forall i: nat ensures MadeAvailable(calls, i, q) <==> MadeAvailable(before, i, q) { OneMore(calls, i, q); }
      }
    }
  }

  lemma OneMore(calls: seq<Request>, i: nat, q: Path)
    requires calls != [] && !Decided(calls, |calls| - 1, q)
    ensures MadeAvailable(calls, i, q) <==> MadeAvailable(calls[..|calls|-1], i, q)
  {
    var before := calls[..|calls|-1];
    assert forall j: nat :: j < |before| ==> (Decided(calls, j, q) <==> Decided(before, j, q));
  }

  // ----- Verified rules -----

  /** A successful call that keeps a path verifies it in place of what was verified below it; one that
      releases a path takes away what was verified there and below. Everything else stays as it was. */
  lemma VerifiedExactly(s: Store, q: Request, v: Path)
    requires Succeeds(q) && VerifiedConfigured(s)
    ensures v in Apply(s, q).verified <==>
            if q.available then v == q.path || (v in s.verified && Beside(v, q.path))
            else v in s.verified && Beside(v, q.path)
  {
    BesideExactly(v, q.path);
  }
}
