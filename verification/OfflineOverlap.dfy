/** Offline calls on different paths of one job run at the same time: each sets its rules at once, works
    for a while, and on a failed hydration puts back the lists it found when it began. */
module OfflineOverlap {
  import opened OfflineRules

  type CallId = nat

  /** What a call asked for. */
  datatype Word = Word(id: CallId, path: Path, available: bool)

  datatype Phase = Working | Succeeded | Failed

  /** found: the lists when the call began; heard: the words that stood then. */
  datatype Call = Call(word: Word, phase: Phase, found: Rules, heard: seq<Word>)

  /** words: what was asked for and not taken back, in the order the calls began. */
  datatype Job = Job(rules: Rules, verified: set<Path>, calls: map<CallId, Call>, words: seq<Word>)

  datatype Event =
    | Begin(id: CallId, path: Path, available: bool)
    | Finish(id: CallId, ok: bool)   // the call's thread ends; a failed hydration is rolled back
    | Report(id: CallId)             // the application hears of it and updates the verified rules

  /** The application starts no second call on a path whose call it has not heard of yet. */
  predicate Enabled(j: Job, e: Event) {
    match e
    case Begin(id, path, _) =>
      && ".." !in path && id !in j.calls && (forall w <- j.words :: w.id != id)
      && (forall i <- j.calls :: j.calls[i].word.path != path)
    case Finish(id, _) => id in j.calls && j.calls[id].phase == Working
    case Report(id) => id in j.calls && j.calls[id].phase != Working
  }

  /** The words without the one of this call. */
  function TakeBack(words: seq<Word>, id: CallId): seq<Word> {
    if words == [] then []
    else if words[0].id == id then TakeBack(words[1..], id) else [words[0]] + TakeBack(words[1..], id)
  }

  ghost function Step(j: Job, e: Event): Job
    requires Enabled(j, e)
  {
    match e
    case Begin(id, path, available) =>
      var word := Word(id, path, available);
      j.(rules := if available then KeepOffline(j.rules, path) else Release(j.rules, path),
         calls := j.calls[id := Call(word, Working, j.rules, j.words)], words := j.words + [word])
    case Finish(id, ok) =>
      var call := j.calls[id];
      if ok then j.(calls := j.calls[id := call.(phase := Succeeded)])
      else if !call.word.available then j.(calls := j.calls[id := call.(phase := Failed)])
      else j.(rules := call.found, calls := j.calls[id := call.(phase := Failed)], words := TakeBack(j.words, id))
    case Report(id) =>
      var call := j.calls[id];
      j.(calls := j.calls - {id},
         verified := if call.phase == Succeeded
                     then VerifiedAfter(j.verified, j.rules.offline, call.word.path, call.word.available)
                         else j.verified)
  }

  // ----- Meaning -----

  predicate Spoken(words: seq<Word>, p: Path) {
    words != [] && (RuleMatches(p, words[|words|-1].path) || Spoken(words[..|words|-1], p))
  }

  /** The last word about p or an ancestor of p decides; none means online-only. */
  predicate Meaning(words: seq<Word>, p: Path) {
    words != [] &&
      if RuleMatches(p, words[|words|-1].path) then words[|words|-1].available else Meaning(words[..|words|-1], p)
  }

  lemma {:induction false} MeaningConcat(a: seq<Word>, b: seq<Word>, p: Path)
    ensures Meaning(a + b, p) <==> if Spoken(b, p) then Meaning(b, p) else Meaning(a, p)
    decreases |b|
  {
    if b == [] {
      assert a + b == a;
    } else {
      MeaningConcat(a, b[..|b|-1], p);
      assert (a + b)[..|a + b|-1] == a + b[..|b|-1];
    }
  }

  ghost predicate Means(r: Rules, words: seq<Word>) {
    forall p :: Available(r, p) <==> Meaning(words, p)
  }

  lemma BeginMeans(r: Rules, words: seq<Word>, word: Word)
    requires Means(r, words)
    ensures Means(if word.available then KeepOffline(r, word.path) else Release(r, word.path), words + [word])
  {
    forall p ensures Available(if word.available then KeepOffline(r, word.path) else Release(r, word.path), p) <==>
                     Meaning(words + [word], p)
    {
      assert (words + [word])[..|words|] == words;
      if word.available { KeepOfflineMeans(r, word.path, p); } else { ReleaseMeans(r, word.path, p); }
    }
  }

  // ----- What every interleaving keeps -----

  /** The two lists never share a rule, and the calls under way are among the words. */
  ghost predicate Inv(j: Job) {
    && Disjoint(j.rules)
    && (forall id <- j.calls :: j.calls[id].word.id == id && Disjoint(j.calls[id].found))
    && (forall i, k :: 0 <= i < k < |j.words| ==> j.words[i].id != j.words[k].id)
    && (forall id <- j.calls :: j.calls[id].phase == Working ==> j.calls[id].word in j.words)
  }

  /** The lists mean what the calls asked for and did not take back; so did the lists each call found. */
  ghost predicate Refines(j: Job) {
    Means(j.rules, j.words) && forall id <- j.calls :: Means(j.calls[id].found, j.calls[id].heard)
  }

  lemma {:induction false} TakeBackKeeps(words: seq<Word>, id: CallId)
    requires forall i, k :: 0 <= i < k < |words| ==> words[i].id != words[k].id
    ensures var r := TakeBack(words, id);
            && (forall i, k :: 0 <= i < k < |r| ==> r[i].id != r[k].id)
            && (forall w :: w in r <==> w in words && w.id != id)
  {
    if words != [] {
      var rest := words[1..];
      TakeBackKeeps(rest, id);
      assert words == [words[0]] + rest;
      var r := TakeBack(rest, id);
      forall i | 0 <= i < |r| ensures r[i].id != words[0].id {
        assert r[i] in rest;
        var k :| 0 <= k < |rest| && rest[k] == r[i];
        assert words[k+1] == r[i];
      }
    }
  }

  lemma {:induction false} TakeBackMiddle(before: seq<Word>, word: Word, later: seq<Word>)
    requires forall w <- before + later :: w.id != word.id
    ensures TakeBack(before + [word] + later, word.id) == before + later
  {
    var all := before + [word] + later;
    if before == [] {
      assert all[0] == word && all[1..] == later;
      forall w <- later ensures w.id != word.id { assert w in before + later; }
      TakeBackNone(later, word.id);
      assert before + later == later;
    } else {
      assert all[0] == before[0] && all[1..] == before[1..] + [word] + later;
      forall w <- before[1..] + later ensures w.id != word.id { assert w in before + later; }
      assert before[0] in before + later;
      TakeBackMiddle(before[1..], word, later);
      assert before + later == [before[0]] + (before[1..] + later);
    }
  }

  lemma {:induction false} TakeBackNone(words: seq<Word>, id: CallId)
    requires forall w <- words :: w.id != id
    ensures TakeBack(words, id) == words
  {
    if words != [] {
      assert words[0] in words && forall w <- words[1..] :: w in words;
      TakeBackNone(words[1..], id);
    }
  }

  lemma BeginRefines(j: Job, e: Event)
    requires Refines(j) && Enabled(j, e) && e.Begin?
    ensures Refines(Step(j, e))
  {
    BeginMeans(j.rules, j.words, Word(e.id, e.path, e.available));
  }

  lemma RulesStayDisjoint(r: Rules, path: Path)
    requires Disjoint(r)
    ensures Disjoint(KeepOffline(r, path)) && Disjoint(Release(r, path))
  {
  }

  lemma BeginKeeps(j: Job, e: Event)
    requires Inv(j) && Enabled(j, e) && e.Begin?
    ensures Inv(Step(j, e))
  {
    var word := Word(e.id, e.path, e.available);
    RulesStayDisjoint(j.rules, e.path);
    var words := j.words + [word];
    assert forall w <- j.words :: w in words;
    assert words[|words|-1] == word;
  }

  /** Where the call's own word stands among the words, and what was said before and after it. */
  ghost predicate Placed(j: Job, id: CallId, before: seq<Word>, later: seq<Word>) {
    id in j.calls && j.words == before + [j.calls[id].word] + later
  }

  lemma Place(j: Job, id: CallId) returns (before: seq<Word>, later: seq<Word>)
    requires Inv(j) && id in j.calls && j.calls[id].phase == Working
    ensures Placed(j, id, before, later) && forall w <- before + later :: w.id != id
  {
    var word := j.calls[id].word;
    var i :| 0 <= i < |j.words| && j.words[i] == word;
    before, later := j.words[..i], j.words[i+1..];
    assert j.words == before + [word] + later;
    forall w <- before + later ensures w.id != id {
      var k :| 0 <= k < |before + later| && (before + later)[k] == w;
      assert w == j.words[if k < i then k else k + 1];
    }
  }

  /** The rollback does no harm: every path a later call spoke about is again what the call had found,
      and no word that was taken back meanwhile would be seen again. */
  ghost predicate Harmless(j: Job, id: CallId, before: seq<Word>, later: seq<Word>)
    requires id in j.calls
  {
    var call := j.calls[id];
    forall p :: if Spoken(later, p) then (Available(j.rules, p) <==> Available(call.found, p))
                else (Meaning(call.heard, p) <==> Meaning(before, p))
  }

  /** A rollback leaves exactly what the other calls asked for if and only if it does no harm. */
  lemma RollbackExactly(j: Job, id: CallId, before: seq<Word>, later: seq<Word>)
    requires Inv(j) && Refines(j) && Enabled(j, Finish(id, false)) && j.calls[id].word.available
    requires Placed(j, id, before, later) && forall w <- before + later :: w.id != id
    ensures Refines(Step(j, Finish(id, false))) <==> Harmless(j, id, before, later)
  {
    var call, j' := j.calls[id], Step(j, Finish(id, false));
    TakeBackMiddle(before, call.word, later);
    assert j'.words == before + later && j'.rules == call.found;
    forall p
      ensures Meaning(before + later, p) <==> if Spoken(later, p) then Available(j.rules, p) else Meaning(before, p) {
      MeaningConcat(before, later, p);
      MeaningConcat(before + [call.word], later, p);
    }
  }

  /** The rollback finds the rules as the call itself had set them: no other call began and none was
      rolled back since. */
  ghost predicate FindsOwn(j: Job, id: CallId)
    requires id in j.calls
  {
    j.words == j.calls[id].heard + [j.calls[id].word]
  }

  lemma OwnRollback(j: Job, id: CallId)
    requires Inv(j) && Refines(j) && Enabled(j, Finish(id, false)) && FindsOwn(j, id)
    ensures Refines(Step(j, Finish(id, false)))
  {
    var call := j.calls[id];
    if call.word.available {
      assert j.words == call.heard + [call.word] + [];
      forall w <- call.heard + [] ensures w.id != id {
        var k :| 0 <= k < |call.heard| && call.heard[k] == w;
        assert j.words[k] == w && j.words[|call.heard|] == call.word;
      }
      RollbackExactly(j, id, call.heard, []);
    }
  }

  lemma FinishKeeps(j: Job, e: Event)
    requires Inv(j) && Enabled(j, e) && !e.Begin?
    ensures Inv(Step(j, e))
  {
    TakeBackKeeps(j.words, e.id);
    var j' := Step(j, e);
    forall id <- j'.calls | j'.calls[id].phase == Working ensures j'.calls[id].word in j'.words {
      assert id in j.calls && j.calls[id].word in j.words && j.calls[id].word.id == id && id != e.id;
    }
  }

  /** Every failed hydration of the run finds the rules as its call had set them. */
  ghost predicate Undisturbed(j: Job, events: seq<Event>)
    decreases |events|
  {
    events != [] ==>
      && Enabled(j, events[0])
      && (events[0].Finish? && !events[0].ok && j.calls[events[0].id].word.available ==> FindsOwn(j, events[0].id))
      && Undisturbed(Step(j, events[0]), events[1..])
  }

  ghost predicate Legal(j: Job, events: seq<Event>)
    decreases |events|
  {
    events != [] ==> Enabled(j, events[0]) && Legal(Step(j, events[0]), events[1..])
  }

  ghost function After(j: Job, events: seq<Event>): Job
    requires Legal(j, events)
    decreases |events|
  {
    if events == [] then j else After(Step(j, events[0]), events[1..])
  }

  const IDLE: Job := Job(Rules([], []), {}, map[], [])

  /** In every interleaving the two lists never share a rule. As long as each failed hydration finds the
      rules as its call had set them, the lists mean what the calls asked for and did not take back. */
  lemma {:induction false} OverlappingCallsRefine(j: Job, events: seq<Event>)
    requires Inv(j) && Legal(j, events)
    ensures Inv(After(j, events))
    ensures Refines(j) && Undisturbed(j, events) ==> Refines(After(j, events))
    decreases |events|
  {
    if events != [] {
      var e := events[0];
      StepKeeps(j, e);
      if Refines(j) && Undisturbed(j, events) {
        match e
        case Begin(_, _, _) => BeginRefines(j, e);
        case Finish(id, ok) =>
          if !ok && j.calls[id].word.available { OwnRollback(j, id); }
        case Report(_) =>
      }
      OverlappingCallsRefine(Step(j, e), events[1..]);
    }
  }

  lemma StepKeeps(j: Job, e: Event)
    requires Inv(j) && Enabled(j, e)
    ensures Inv(Step(j, e))
  {
    if e.Begin? { BeginKeeps(j, e); } else { FinishKeeps(j, e); }
  }

  /** Hearing of a call changes the verified rules only if the call succeeded: the path kept takes the place of
      what was verified below it; after a release only what is still a rule stays verified. */
  lemma ReportExactly(j: Job, id: CallId, v: Path)
    requires Enabled(j, Report(id))
    ensures var call, j' := j.calls[id], Step(j, Report(id));
            && j'.rules == j.rules && j'.words == j.words && j'.calls == j.calls - {id}
            && (v in j'.verified <==>
                if call.phase != Succeeded || (call.word.available && call.word.path !in j.rules.offline)
                then v in j.verified
                else if call.word.available
                then v == call.word.path || (v in j.verified && !(call.word.path < v))
                else v in j.verified && v in j.rules.offline)
  {
  }

  lemma One(j: Job, e: Event, rest: seq<Event>)
    requires Enabled(j, e) && Legal(Step(j, e), rest)
    ensures Legal(j, [e] + rest) && After(j, [e] + rest) == After(Step(j, e), rest)
  {
    assert ([e] + rest)[1..] == rest;
  }

  /** The two events lead to this state. */
  ghost predicate Leads(j: Job, a: Event, b: Event, j': Job) {
    Enabled(j, a) && Enabled(Step(j, a), b) && Step(Step(j, a), b) == j'
  }

  lemma Two(j: Job, a: Event, b: Event, j': Job, rest: seq<Event>)
    requires Leads(j, a, b, j') && Legal(j', rest)
    ensures Legal(j, [a] + ([b] + rest)) && After(j, [a] + ([b] + rest)) == After(j', rest)
  {
    One(Step(j, a), b, rest);
    One(j, a, [b] + rest);
  }

  lemma BothBegin(big: Path, small: Path) returns (j: Job)
    requires big != [] && small != [] && big != small && ".." !in big && ".." !in small && !RuleMatches(small, big)
    ensures Leads(IDLE, Begin(1, big, true), Begin(2, small, true), j)
    ensures 1 in j.calls && j.calls[1] == Call(Word(1, big, true), Working, Rules([], []), [])
    ensures 2 in j.calls && j.calls[2].word == Word(2, small, true) && j.calls[2].phase == Working
    ensures j.words == [Word(1, big, true), Word(2, small, true)] && small in j.rules.offline
  {
    var j1 := Step(IDLE, Begin(1, big, true));
    assert j1.words == [Word(1, big, true)];
    j := Step(j1, Begin(2, small, true));
    assert j.words == [Word(1, big, true), Word(2, small, true)];
  }

  lemma SecondReports(j: Job, small: Path) returns (j': Job)
    requires 2 in j.calls && j.calls[2].phase == Working && j.calls[2].word == Word(2, small, true)
    requires small in j.rules.offline
    ensures Leads(j, Finish(2, true), Report(2), j')
    ensures j'.calls == j.calls - {2} && j'.words == j.words && j'.rules == j.rules && small in j'.verified
  {
    j' := Step(Step(j, Finish(2, true)), Report(2));
    assert j'.calls == j.calls - {2};
  }

  lemma FirstFails(j: Job, big: Path, small: Path) returns (j': Job)
    requires 1 in j.calls && j.calls[1] == Call(Word(1, big, true), Working, Rules([], []), [])
    requires j.words == [Word(1, big, true), Word(2, small, true)]
    ensures Legal(j, [Finish(1, false)] + []) && After(j, [Finish(1, false)] + []) == j'
    ensures j'.words == [Word(2, small, true)] && j'.rules == Rules([], []) && j'.verified == j.verified
  {
    j' := Step(j, Finish(1, false));
    TakeBackMiddle([], Word(1, big, true), [Word(2, small, true)]);
    assert [] + [Word(1, big, true)] + [Word(2, small, true)] == j.words;
    One(j, Finish(1, false), []);
  }

  /** Two calls overlap and the first one fails: its rollback wipes out the second, which succeeded. That
      path is no longer available, and it stays verified without a rule. */
  lemma RollbackWipesOut(big: Path, small: Path)
    requires big != [] && small != [] && big != small && ".." !in big && ".." !in small && !RuleMatches(small, big)
    ensures var run := [Begin(1, big, true)] + ([Begin(2, small, true)] + ([Finish(2, true)] + ([Report(2)] +
                       ([Finish(1, false)] + []))));
            && Legal(IDLE, run)
            && var j := After(IDLE, run);
               Meaning(j.words, small) && !Available(j.rules, small) && small in j.verified && small !in j.rules.offline
  {
    var j2 := BothBegin(big, small);
    var j4 := SecondReports(j2, small);
    var j5 := FirstFails(j4, big, small);
    var rest := [Finish(1, false)] + [];
    Two(j2, Finish(2, true), Report(2), j4, rest);
    Two(IDLE, Begin(1, big, true), Begin(2, small, true), j2, [Finish(2, true)] + ([Report(2)] + rest));
  }
}
