/** Documents typed in one go, such as an imported file: what a later edit in the middle shows. */
module TypedRuns {
  import opened Decimal
  import opened TextOperations
  import opened PathOrder
  import opened OperationForest
  import opened Convergence
  import opened Editing
  import opened Replacing

  function ParentInRun(actor: string, counter: nat, after: string, c: nat): string
    requires c > counter
  {
    if c == counter + 1 then after else MakeId(actor, c - 1)
  }

  /** The operations of a typed word, one per counter value. */
  ghost predicate HoldsRun(ops: Operations, actor: string, counter: nat, clock: Clock, after: string, w: string) {
    forall c :: counter < c <= counter + |w| ==>
      && MakeId(actor, c) in ops
      && ops[MakeId(actor, c)] == NewInsert(actor, c, clock, ParentInRun(actor, counter, after, c), w[c - counter - 1])
  }

  /** Typing changes nothing but the identifiers it makes. */
  lemma {:induction false} OthersKept(
    ops: Operations, actor: string, counter: nat, clock: Clock, after: string, w: string, id: string)
    requires id in ops && forall c :: c > counter ==> MakeId(actor, c) != id
    ensures id in AddChars(ops, actor, counter, clock, after, w)
    ensures AddChars(ops, actor, counter, clock, after, w)[id] == ops[id]
    decreases |w|
  {
    if w != "" {
      var op := NewInsert(actor, counter + 1, clock, after, w[0]);
      OthersKept(With(ops, op), actor, counter + 1, clock, op.operationId, w[1..], id);
    }
  }

  lemma {:induction false} RunHolds(
    ops: Operations, actor: string, counter: nat, clock: Clock, after: string, w: string, c: nat)
    requires SafeActor(actor) && counter < c <= counter + |w|
    ensures MakeId(actor, c) in AddChars(ops, actor, counter, clock, after, w)
    ensures AddChars(ops, actor, counter, clock, after, w)[MakeId(actor, c)] ==
            NewInsert(actor, c, clock, ParentInRun(actor, counter, after, c), w[c - counter - 1])
    decreases |w|
  {
    var op := NewInsert(actor, counter + 1, clock, after, w[0]);
    if c == counter + 1 {
      forall d | d > c ensures MakeId(actor, d) != op.operationId {
        if MakeId(actor, d) == op.operationId { IdInjective(actor, d, actor, c); }
      }
      OthersKept(With(ops, op), actor, c, clock, op.operationId, w[1..], op.operationId);
    } else {
      RunHolds(With(ops, op), actor, counter + 1, clock, op.operationId, w[1..], c);
    }
  }

  ghost function Run(actor: string, clock: Clock, u: string): Operations {
    AddChars(map[], actor, 0, clock, ROOT, u)
  }

  lemma EmptyIsEditable(actor: string)
    requires SafeActor(actor)
    ensures Editable(map[], actor, 0) && Visible(map[]) == []
  {
    var none: Operations := map[];
    assert Inserts(none) == {};
    OrderIs(none, []);
  }

  lemma RunHeld(actor: string, clock: Clock, u: string)
    requires SafeActor(actor)
    ensures HoldsRun(Run(actor, clock, u), actor, 0, clock, ROOT, u)
  {
    forall c | 0 < c <= |u|
      ensures MakeId(actor, c) in Run(actor, clock, u)
      ensures Run(actor, clock, u)[MakeId(actor, c)] ==
              NewInsert(actor, c, clock, ParentInRun(actor, 0, ROOT, c), u[c - 0 - 1])
    {
      RunHolds(map[], actor, 0, clock, ROOT, u, c);
    }
  }

  lemma RunVisible(actor: string, clock: Clock, u: string)
    requires SafeActor(actor)
    ensures Editable(Run(actor, clock, u), actor, |u|)
    ensures Visible(Run(actor, clock, u)) == CharIds(actor, 0, |u|) && Text(Run(actor, clock, u)) == u
    ensures HoldsRun(Run(actor, clock, u), actor, 0, clock, ROOT, u)
  {
    var none: Operations := map[];
    EmptyIsEditable(actor);
    RunHeld(actor, clock, u);
    if u != "" {
      TypingLaw(none, actor, 0, clock, 0, u);
      TypedText(none, Run(actor, clock, u), actor, 0, 0, u);
      RunSingles(none, actor, 0, clock, ROOT, u);
    }
  }

  lemma {:induction false} RunSingles(ops: Operations, actor: string, counter: nat, clock: Clock, after: string,
      w: string)
    requires SingleChars(ops)
    ensures SingleChars(AddChars(ops, actor, counter, clock, after, w))
    decreases |w|
  {
    if w != "" {
      var op := NewInsert(actor, counter + 1, clock, after, w[0]);
      assert SingleChars(With(ops, op)) by {
        forall id <- Inserts(With(ops, op)) ensures |With(ops, op)[id].value| == 1 {
          if id != op.operationId { assert id in Inserts(ops); }
        }
      }
      RunSingles(With(ops, op), actor, counter + 1, clock, op.operationId, w[1..]);
    }
  }

  ghost function RunPath(actor: string, c: nat): (p: seq<SortKey>)
    ensures |p| == c && forall j :: 0 <= j < c ==> p[j] == NewKey(actor, j + 1)
  {
    if c == 0 then [] else RunPath(actor, c - 1) + [NewKey(actor, c)]
  }

  lemma RunParent(ops: Operations, actor: string, clock: Clock, u: string, c: nat)
    requires HoldsRun(ops, actor, 0, clock, ROOT, u) && 1 <= c <= |u|
    ensures MakeId(actor, c) in Inserts(ops)
    ensures Parent(ops, MakeId(actor, c)) == RunAnchor(actor, c - 1)
    ensures KeyOf(ops[MakeId(actor, c)]) == NewKey(actor, c)
  {
    if c > 1 { assert MakeId(actor, c - 1) in ops; }
  }

  function RunAnchor(actor: string, p: nat): string {
    if p == 0 then ROOT else MakeId(actor, p)
  }

  /** In a typed run every character hangs under all the earlier ones. */
  lemma {:induction false} RunPathIs(ops: Operations, actor: string, clock: Clock, u: string, c: nat)
    requires HoldsRun(ops, actor, 0, clock, ROOT, u) && 1 <= c <= |u|
    ensures IsRootPathTo(ops, RunPath(actor, c), MakeId(actor, c))
  {
    RunParent(ops, actor, clock, u, c);
    if c > 1 { RunPathIs(ops, actor, clock, u, c - 1); }
    assert RunPath(actor, c)[..c-1] == RunPath(actor, c - 1);
  }

  lemma RunInSubtree(ops: Operations, actor: string, clock: Clock, u: string, p: nat, i: nat)
    requires HoldsRun(ops, actor, 0, clock, ROOT, u) && ROOT !in Inserts(ops) && p <= i < |u|
    ensures InSmallerSubtree(ops, RunAnchor(actor, p), NewKey(actor, |u| + 1), MakeId(actor, i + 1))
  {
    RunPathIs(ops, actor, clock, u, i + 1);
    PathIs(ops, RunPath(actor, i + 1), MakeId(actor, i + 1));
    RunParent(ops, actor, clock, u, p + 1);
    assert Path(ops, MakeId(actor, i + 1))[p] == NewKey(actor, p + 1);
  }

  lemma RunPositions(actor: string, clock: Clock, u: string, p: nat)
    requires SafeActor(actor) && p <= |u|
    ensures Acyclic(Run(actor, clock, u)) && |Visible(Run(actor, clock, u))| == |u|
    ensures AnchorAt(Run(actor, clock, u), p) == RunAnchor(actor, p)
    ensures p < |u| ==> Visible(Run(actor, clock, u))[p] == MakeId(actor, p + 1)
  {
    RunVisible(actor, clock, u);
  }

  /** Everything behind position p of a run is in the subtree the anchor's next character heads. */
  lemma RunOvertaken(actor: string, clock: Clock, u: string, p: nat, i: nat)
    requires SafeActor(actor) && p <= i < |u|
    requires Acyclic(Run(actor, clock, u)) && |Visible(Run(actor, clock, u))| == |u|
    ensures Visible(Run(actor, clock, u))[i] in Overtaken(Run(actor, clock, u), p, NewKey(actor, |u| + 1))
  {
    RunPositions(actor, clock, u, p);
    RunPositions(actor, clock, u, i);
    RunVisible(actor, clock, u);
    RunInSubtree(Run(actor, clock, u), actor, clock, u, p, i);
    assert Visible(Run(actor, clock, u))[i] in Visible(Run(actor, clock, u));
  }

  /** The run after typing w at position p. */
  ghost function Edited(actor: string, clock: Clock, u: string, p: nat, w: string): Operations {
    AddChars(Run(actor, clock, u), actor, |u|, clock, RunAnchor(actor, p), w)
  }

  lemma RunSlot(actor: string, clock: Clock, u: string, p: nat, w: string)
    requires SafeActor(actor) && p <= |u| && w != ""
    ensures Acyclic(Run(actor, clock, u)) && p <= |Visible(Run(actor, clock, u))|
    ensures |Overtaken(Run(actor, clock, u), p, NewKey(actor, |u| + 1))| == |u| - p
  {
    var ops, key := Run(actor, clock, u), NewKey(actor, |u| + 1);
    RunVisible(actor, clock, u);
    var ops' := AddChars(ops, actor, |u|, clock, AnchorAt(ops, p), w);
    assert Acyclic(ops') && TypedAt(ops, ops', actor, |u|, p, w) by { TypingLaw(ops, actor, |u|, clock, p, w); }
    var a := p + |Overtaken(ops, p, key)|;
    if a < |u| {
      RunOvertaken(actor, clock, u, p, a);
      VisibleFacts(ops);
    }
  }

  /** After one uninterrupted run, the same actor's next word always shows up at the end,
      whatever position it was typed at. */
  lemma RunAlwaysAppends(actor: string, clock: Clock, u: string, p: nat, w: string)
    requires SafeActor(actor) && p <= |u| && w != ""
    ensures Acyclic(Edited(actor, clock, u, p, w)) && Text(Edited(actor, clock, u, p, w)) == u + w
  {
    assert && Acyclic(Run(actor, clock, u)) && p <= |Visible(Run(actor, clock, u))|
           && |Overtaken(Run(actor, clock, u), p, NewKey(actor, |u| + 1))| == |u| - p
           && RunAnchor(actor, p) == AnchorAt(Run(actor, clock, u), p) by {
      RunSlot(actor, clock, u, p, w);
      RunPositions(actor, clock, u, p);
    }
    assert Editable(Run(actor, clock, u), actor, |u|) && Text(Run(actor, clock, u)) == u by {
      RunVisible(actor, clock, u);
    }
    TypedBehindAll(Run(actor, clock, u), Edited(actor, clock, u, p, w), actor, |u|, clock, p, RunAnchor(actor, p), w,
        |u| - p, u);
  }

  lemma TypedBehindAll(
    ops: Operations, ops': Operations, actor: string, counter: nat, clock: Clock, p: nat, anchor: string, w: string,
    k: nat, t: string)
    requires Editable(ops, actor, counter) && p <= |Visible(ops)| && w != ""
    requires anchor == AnchorAt(ops, p) && k == |Overtaken(ops, p, NewKey(actor, counter + 1))|
    requires t == Text(ops) && p + k == |t|
    requires ops' == AddChars(ops, actor, counter, clock, anchor, w)
    ensures Acyclic(ops') && Text(ops') == t + w
  {
    assert ops' == AddChars(ops, actor, counter, clock, AnchorAt(ops, p), w);
    TextLengthOf(ops);
    TypedAtEnd(ops, ops', actor, counter, clock, p, w);
  }

  lemma TextLengthOf(ops: Operations)
    requires Acyclic(ops) && SingleChars(ops)
    ensures |Text(ops)| == |Visible(ops)|
  {
    VisibleFacts(ops);
    RenderLength(ops, Visible(ops));
  }

  /** A word that overtakes everything behind its position shows at the end. */
  lemma TypedAtEnd(ops: Operations, ops': Operations, actor: string, counter: nat, clock: Clock, p: nat, w: string)
    requires WellKeyed(ops) && Acyclic(ops) && Fresh(ops, actor, counter) && w != "" && p <= |Visible(ops)|
    requires p + |Overtaken(ops, p, NewKey(actor, counter + 1))| == |Visible(ops)|
    requires ops' == AddChars(ops, actor, counter, clock, AnchorAt(ops, p), w)
    ensures Acyclic(ops') && Text(ops') == Text(ops) + w
  {
    TypingLaw(ops, actor, counter, clock, p, w);
    TypedText(ops, ops', actor, counter, p, w);
    var v := Visible(ops);
    assert v[..|v|] == v && v[|v|..] == [];
  }

  /** So the word shows where it was typed exactly when it can change places with the rest of the run. */
  lemma RunEditExact(actor: string, clock: Clock, u: string, p: nat, w: string)
    requires SafeActor(actor) && p <= |u| && w != ""
    ensures Acyclic(Edited(actor, clock, u, p, w))
    ensures Text(Edited(actor, clock, u, p, w)) == u[..p] + w + u[p..] <==> u[p..] + w == w + u[p..]
  {
    RunAlwaysAppends(actor, clock, u, p, w);
    RunSwap(u, p, w);
  }

  lemma RunSwap(u: string, p: nat, w: string)
    requires p <= |u|
    ensures u + w == u[..p] + w + u[p..] <==> u[p..] + w == w + u[p..]
  {
    assert u + w == u[..p] + (u[p..] + w) + "" by { assert u == u[..p] + u[p..]; }
    assert u[..p] + w + u[p..] == u[..p] + (w + u[p..]) + "";
    SameMiddle(u[..p], u[p..] + w, w + u[p..], "");
  }

  /** The smallest case: "ac" typed, then "b" inserted between the two, reads "acb". */
  lemma MisplacedInsertion(actor: string, clock: Clock)
    requires SafeActor(actor)
    ensures Acyclic(Edited(actor, clock, "ac", 1, "b"))
    ensures Text(Edited(actor, clock, "ac", 1, "b")) == "acb" != "abc"
  {
    RunAlwaysAppends(actor, clock, "ac", 1, "b");
    assert "acb"[1] != "abc"[1];
  }

  // ----- Where fresh identifiers come from -----

  /** Identifiers are built from actor and counter. */
  ghost predicate CanonicalIds(ops: Operations) {
    forall id <- ops :: ops[id].operationId == id && SafeActor(ops[id].actor)
        && id == MakeId(ops[id].actor, ops[id].counter)
  }

  ghost predicate OwnCountersUpTo(ops: Operations, actor: string, counter: nat) {
    forall id <- ops :: ops[id].actor == actor ==> ops[id].counter <= counter
  }

  /** The operation refers to none of the identifiers the actor makes beyond the counter. */
  ghost predicate RefersBack(x: TextOperation, actor: string, counter: nat) {
    forall c :: c > counter ==> x.after != MakeId(actor, c) && x.target != MakeId(actor, c)
  }

  /** A counter that has caught up with the actor's own operations makes fresh identifiers if and only
      if no operation refers to one it has yet to make. */
  lemma CaughtUpIsFresh(ops: Operations, actor: string, counter: nat)
    requires CanonicalIds(ops) && SafeActor(actor) && OwnCountersUpTo(ops, actor, counter)
    ensures Fresh(ops, actor, counter) <==> forall id <- ops :: RefersBack(ops[id], actor, counter)
  {
    forall c | c > counter ensures MakeId(actor, c) !in ops {
      var id := MakeId(actor, c);
      if id in ops { IdInjective(actor, c, ops[id].actor, ops[id].counter); }
    }
    if Fresh(ops, actor, counter) {
      forall id <- ops ensures RefersBack(ops[id], actor, counter) {
        assert forall c :: c > counter ==> Unmentioned(ops, MakeId(actor, c));
      }
    } else {
      var c :| c > counter && !Unmentioned(ops, MakeId(actor, c));
      var id :| id in ops && (ops[id].after == MakeId(actor, c) || ops[id].target == MakeId(actor, c));
      assert !RefersBack(ops[id], actor, counter);
    }
  }

  // ----- Which merges keep a document editable -----

  /** What is received carries single characters and neither holds nor refers to identifiers the actor
      has yet to make. */
  ghost predicate Harmless(x: TextOperation, actor: string, counter: nat) {
    && (x.kind == Insert ==> |x.value| == 1)
    && (forall c :: c > counter ==> x.operationId != MakeId(actor, c))
    && RefersBack(x, actor, counter)
  }

  ghost predicate AllHarmless(xs: seq<TextOperation>, actor: string, counter: nat) {
    forall x <- xs :: Harmless(x, actor, counter)
  }

  lemma HarmlessPart(ops: Operations, actor: string, counter: nat)
    requires WellKeyed(ops) && SafeActor(actor)
    ensures SingleChars(ops) && Fresh(ops, actor, counter) <==> forall id <- ops :: Harmless(ops[id], actor, counter)
  {
    if SingleChars(ops) && Fresh(ops, actor, counter) {
      assert forall c :: c > counter ==> Unmentioned(ops, MakeId(actor, c));
      forall id <- ops ensures Harmless(ops[id], actor, counter) {
        assert ops[id].kind == Insert ==> id in Inserts(ops);
      }
    }
    if forall id <- ops :: Harmless(ops[id], actor, counter) {
      forall id <- Inserts(ops) ensures |ops[id].value| == 1 { assert Harmless(ops[id], actor, counter); }
      forall c | c > counter ensures Unmentioned(ops, MakeId(actor, c)) {
        forall id <- ops
          ensures id != MakeId(actor, c) && ops[id].after != MakeId(actor, c) && ops[id].target != MakeId(actor, c) {
          assert Harmless(ops[id], actor, counter);
        }
      }
    }
  }

  /** A merge keeps a document editable if and only if what it received is harmless and the whole is
      still a forest. */
  lemma MergeKeepsEditable(ops: Operations, xs: seq<TextOperation>, actor: string, counter: nat)
    requires Editable(ops, actor, counter) && Merge(ops, xs).outcome.Ok? && WellKeyed(Merge(ops, xs).ops)
    ensures Editable(Merge(ops, xs).ops, actor, counter) <==>
            Acyclic(Merge(ops, xs).ops) && AllHarmless(xs, actor, counter)
  {
    var u := Merge(ops, xs).ops;
    MergeIsUnion(ops, xs);
    HarmlessPart(ops, actor, counter);
    HarmlessPart(u, actor, counter);
    assert forall x <- xs :: x.operationId in u && u[x.operationId] == x;
    assert forall id <- u :: (id in ops && u[id] == ops[id]) || u[id] in xs;
  }
}
