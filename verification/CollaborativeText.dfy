/** The replicated document itself: operations and a counter, updated in place. */
module CollaborativeText {
  import opened Basics
  import opened Decimal
  import opened TextOperations
  import opened PathOrder
  import opened OperationForest
  import opened Convergence
  import opened Editing
  import opened Replacing
  import opened TypedRuns
  import Walker

  // ----- Facts the methods rely on -----

  lemma {:induction false} MergeKeyed(m: Operations, xs: seq<TextOperation>)
    requires WellKeyed(m)
    ensures WellKeyed(Merge(m, xs).ops)
    decreases |xs|
  {
    if xs != [] { MergeKeyed(m[xs[0].operationId := xs[0]], xs[1..]); }
  }

  lemma {:induction false} AddCharsKeyed(ops: Operations, actor: string, counter: nat, clock: Clock, after: string,
      w: string)
    requires WellKeyed(ops)
    ensures WellKeyed(AddChars(ops, actor, counter, clock, after, w))
    decreases |w|
  {
    if w != "" {
      var op := NewInsert(actor, counter + 1, clock, after, w[0]);
      AddCharsKeyed(With(ops, op), actor, counter + 1, clock, op.operationId, w[1..]);
    }
  }

  /** The operations typing creates, in order. */
  function CharOps(actor: string, counter: nat, clock: Clock, after: string, w: string): seq<TextOperation>
    decreases |w|
  {
    if w == "" then []
    else
      var op := NewInsert(actor, counter + 1, clock, after, w[0]);
      [op] + CharOps(actor, counter + 1, clock, op.operationId, w[1..])
  }

  /** A replica with the same document that receives the created operations ends up the same, unless
      typing went past the safety limit, which only merging looks at. */
  ghost predicate Recorded(ops: Operations, created: seq<TextOperation>, ops': Operations, w: string) {
    var r := Merge(ops, created);
    (r.outcome.Ok? <==> w == "" || |ops'| <= MAX_OPERATIONS) && (r.outcome.Ok? ==> r.ops == ops')
  }

  lemma {:induction false} CreatedReplicates(ops: Operations, actor: string, counter: nat, clock: Clock,
      after: string, w: string)
    requires WellKeyed(ops) && Fresh(ops, actor, counter) && (after == ROOT || after in ops)
    ensures |AddChars(ops, actor, counter, clock, after, w)| == |ops| + |w|
    ensures Recorded(ops, CharOps(actor, counter, clock, after, w), AddChars(ops, actor, counter, clock, after, w), w)
    decreases |w|
  {
    if w != "" {
      var op := NewInsert(actor, counter + 1, clock, after, w[0]);
      var xs := CharOps(actor, counter, clock, after, w);
      assert Unmentioned(ops, op.operationId);
      FreshAfterInsert(ops, actor, counter, clock, after, w[0]);
      assert xs[0] == op && xs[1..] == CharOps(actor, counter + 1, clock, op.operationId, w[1..]);
      CreatedReplicates(With(ops, op), actor, counter + 1, clock, op.operationId, w[1..]);
    }
  }

  /** The upper end of Python's slice [start:end], never below the lower end. */
  function SliceEnd(start: int, end: int, n: nat): int {
    var lo, hi := Clamp(start, 0, n), Clamp(end, 0, n);
    if hi < lo then lo else hi
  }

  /** The slice holds exactly the positions from start up to, but not including, end. */
  lemma SliceExactly(start: int, end: int, n: nat, i: nat)
    requires i < n
    ensures 0 <= Clamp(start, 0, n) <= SliceEnd(start, end, n) <= n
    ensures Clamp(start, 0, n) <= i < SliceEnd(start, end, n) <==> start <= i < end
  {
  }

  lemma EditableAfterTyping(ops: Operations, actor: string, counter: nat, clock: Clock, p: nat, w: string)
    requires Editable(ops, actor, counter) && p <= |Visible(ops)|
    ensures Editable(AddChars(ops, actor, counter, clock, AnchorAt(ops, p), w), actor, counter + |w|)
  {
    if w != "" {
      TypingLaw(ops, actor, counter, clock, p, w);
      RunSingles(ops, actor, counter, clock, AnchorAt(ops, p), w);
    }
  }

  lemma EditableAfterDeleting(ops: Operations, actor: string, counter: nat, clock: Clock, lo: nat, hi: nat)
    requires Editable(ops, actor, counter) && lo <= hi <= |Visible(ops)|
    requires lo == hi || |ops| + (hi - lo) <= MAX_OPERATIONS
    ensures var mid := Merge(ops, DeleteOps(actor, counter, clock, Visible(ops)[lo..hi])).ops;
            Editable(mid, actor, counter + (hi - lo)) && Visible(mid) == Visible(ops)[..lo] + Visible(ops)[hi..]
  {
    DeletingLaw(ops, actor, counter, clock, lo, hi);
    AfterDeletion(ops, actor, counter, clock, lo, hi, NewKey(actor, counter));
  }

  /** The replacement of the middle [p, hi) by w, leaving the last s characters. */
  ghost predicate ReplacedBetween(
    ops: Operations, actor: string, counter: nat, clock: Clock, value: string, p: nat, s: nat, hi: nat, w: string,
    ops': Operations)
  {
    && Acyclic(ops) && p <= hi <= |Text(ops)| == |Visible(ops)| && p + s <= |value|
    && Editable(ops', actor, counter + (hi - p) + |w|)
    && hi == |Text(ops)| - s && w == value[p..|value|-s]
    && ops' == Replaced(ops, actor, counter, clock, p, hi, w)
    && ReplaceOutcome(Text(ops), Text(ops'), value, p, s,
       |Displaced(ops, p, hi, NewKey(actor, counter + (hi - p) + 1))|)
  }

  /** The effect of a replacement on a sound document; it fails only at the safety limit. */
  ghost predicate ReplaceSpec(
    ops: Operations, actor: string, counter: nat, clock: Clock, value: string, p: nat, s: nat, hi: nat, w: string,
    ops': Operations, ok: bool)
  {
    && Acyclic(ops)
    && IsCommonPrefix(Text(ops), value, p) && IsCommonSuffix(Text(ops), value, p, s)
    && hi == |Text(ops)| - s && w == value[p..|value|-s]
    && (ok <==> p == hi || |ops| + (hi - p) <= MAX_OPERATIONS)
    && (ok ==> ReplacedBetween(ops, actor, counter, clock, value, p, s, hi, w, ops'))
  }

  lemma TextLength(ops: Operations)
    requires Acyclic(ops) && SingleChars(ops)
    ensures |Text(ops)| == |Visible(ops)|
  {
    VisibleFacts(ops);
    RenderLength(ops, Visible(ops));
  }

  lemma MidEditable(
    ops: Operations, mid: Operations, actor: string, counter: nat, clock: Clock, p: nat, hi: nat)
    requires Editable(ops, actor, counter) && p <= hi <= |Visible(ops)|
    requires p == hi || |ops| + (hi - p) <= MAX_OPERATIONS
    requires mid == Merge(ops, DeleteOps(actor, counter, clock, Visible(ops)[p..hi])).ops
    ensures Editable(mid, actor, counter + (hi - p)) && p <= |Visible(mid)| && AnchorAt(mid, p) == AnchorAt(ops, p)
  {
    AfterDeletion(ops, actor, counter, clock, p, hi, NewKey(actor, counter));
  }

  lemma MidReplaced(
    ops: Operations, mid: Operations, actor: string, counter: nat, clock: Clock, p: nat, hi: nat, w: string)
    requires Editable(ops, actor, counter) && p <= hi <= |Visible(ops)|
    requires mid == Merge(ops, DeleteOps(actor, counter, clock, Visible(ops)[p..hi])).ops
    requires Acyclic(mid) && p <= |Visible(mid)| && AnchorAt(mid, p) == AnchorAt(ops, p)
    ensures Replaced(ops, actor, counter, clock, p, hi, w) ==
            AddChars(mid, actor, counter + (hi - p), clock, AnchorAt(mid, p), w)
  {
  }

  lemma ReplaceMeetsSpec(
    ops: Operations, actor: string, counter: nat, clock: Clock, value: string, p: nat, s: nat, hi: nat, w: string,
    ops': Operations)
    requires Editable(ops, actor, counter) && |Text(ops)| == |Visible(ops)|
    requires IsCommonPrefix(Text(ops), value, p) && IsCommonSuffix(Text(ops), value, p, s)
    requires hi == |Text(ops)| - s && w == value[p..|value|-s]
    requires p == hi || |ops| + (hi - p) <= MAX_OPERATIONS
    requires ops' == Replaced(ops, actor, counter, clock, p, hi, w) && Editable(ops', actor, counter + (hi - p) + |w|)
    ensures ReplacedBetween(ops, actor, counter, clock, value, p, s, hi, w, ops')
  {
    assert ReplaceOutcome(Text(ops), Text(ops'), value, p, s,
        |Displaced(ops, p, hi, NewKey(actor, counter + (hi - p) + 1))|) by {
      ReplaceExact(ops, actor, counter, clock, value, p, s, hi, w,
                   |Displaced(ops, p, hi, NewKey(actor, counter + (hi - p) + 1))|);
    }
  }

  /** Typing at a position, clamped to the visible text. */
  ghost predicate InsertSpec(
    ops: Operations, actor: string, counter: nat, clock: Clock, position: int, text: string,
    ops': Operations, counter': nat, created: seq<TextOperation>)
    requires Acyclic(ops)
  {
    var anchor := AnchorAt(ops, Clamp(position, 0, |Visible(ops)|));
    && ops' == AddChars(ops, actor, counter, clock, anchor, text)
    && counter' == counter + |text|
    && created == CharOps(actor, counter, clock, anchor, text)
  }

  /** Deleting a Python slice of the visible text; recording it can fail. */
  ghost predicate DeleteSpec(
    ops: Operations, actor: string, counter: nat, clock: Clock, start: int, end: int,
    ops': Operations, counter': nat, r: Result<seq<TextOperation>>)
    requires Acyclic(ops)
  {
    var v := Visible(ops);
    var lo, hi := Clamp(start, 0, |v|), SliceEnd(start, end, |v|);
    var created := DeleteOps(actor, counter, clock, v[lo..hi]);
    && counter' == counter + (hi - lo)
    && ops' == Merge(ops, created).ops
    && r == if Merge(ops, created).outcome.Ok? then Ok(created) else Err(Merge(ops, created).outcome.error)
  }

  /** On a sound document the slice disappears and nothing else; only the safety limit can object. */
  ghost predicate DeletedSlice(ops: Operations, start: int, end: int, ops': Operations, ok: bool)
    requires Acyclic(ops)
  {
    var v := Visible(ops);
    var lo, hi := Clamp(start, 0, |v|), SliceEnd(start, end, |v|);
    && (ok <==> lo == hi || |ops| + (hi - lo) <= MAX_OPERATIONS)
    && (ok ==> Acyclic(ops') && Visible(ops') == v[..lo] + v[hi..])
  }

  ghost predicate Bounds(t: string, value: string, p: nat, s: nat, hi: nat, w: string) {
    && IsCommonPrefix(t, value, p) && IsCommonSuffix(t, value, p, s)
    && hi == |t| - s && w == value[p..|value|-s]
  }

  /** The slice a replacement deletes, and the state the deletion leaves. */
  lemma ReplaceDeletes(
    ops: Operations, mid: Operations, actor: string, counter: nat, counter': nat, clock: Clock, p: nat, hi: nat,
    r: Result<seq<TextOperation>>)
    requires Acyclic(ops) && p <= hi <= |Visible(ops)|
    requires DeleteSpec(ops, actor, counter, clock, p, hi, mid, counter', r) && DeletedSlice(ops, p, hi, mid, r.Ok?)
    ensures && counter' == counter + (hi - p)
            && mid == Merge(ops, DeleteOps(actor, counter, clock, Visible(ops)[p..hi])).ops
            && (r.Ok? <==> p == hi || |ops| + (hi - p) <= MAX_OPERATIONS)
  {
  }

  lemma ReplaceTypes(
    ops: Operations, mid: Operations, ops': Operations, actor: string, counter: nat, counter': nat, clock: Clock,
    p: nat, hi: nat, w: string, created: seq<TextOperation>)
    requires Editable(ops, actor, counter) && p <= hi <= |Visible(ops)|
             && (p == hi || |ops| + (hi - p) <= MAX_OPERATIONS)
    requires mid == Merge(ops, DeleteOps(actor, counter, clock, Visible(ops)[p..hi])).ops && Acyclic(mid)
    requires InsertSpec(mid, actor, counter + (hi - p), clock, p, w, ops', counter', created)
    ensures ops' == Replaced(ops, actor, counter, clock, p, hi, w) && counter' == counter + (hi - p) + |w|
  {
    MidEditable(ops, mid, actor, counter, clock, p, hi);
    MidReplaced(ops, mid, actor, counter, clock, p, hi, w);
  }

  lemma ReplaceDone(
    ops: Operations, mid: Operations, ops': Operations, actor: string, counter: nat, counter': nat, counter'': nat,
    clock: Clock, value: string, p: nat, s: nat, hi: nat, w: string, r: Result<seq<TextOperation>>,
    created: seq<TextOperation>)
    requires Editable(ops, actor, counter) && Bounds(Text(ops), value, p, s, hi, w) && r.Ok? && Acyclic(mid)
    requires DeleteSpec(ops, actor, counter, clock, p, hi, mid, counter', r) && DeletedSlice(ops, p, hi, mid, r.Ok?)
    requires InsertSpec(mid, actor, counter', clock, p, w, ops', counter'', created)
    requires Editable(ops', actor, counter'')
    ensures ReplaceSpec(ops, actor, counter, clock, value, p, s, hi, w, ops', true)
  {
    TextLength(ops);
    ReplaceDeletes(ops, mid, actor, counter, counter', clock, p, hi, r);
    DeletedThenTyped(ops, mid, ops', actor, counter, counter'', clock, value, p, s, hi, w, created);
  }

  lemma DeletedThenTyped(
    ops: Operations, mid: Operations, ops': Operations, actor: string, counter: nat, counter'': nat, clock: Clock,
    value: string, p: nat, s: nat, hi: nat, w: string, created: seq<TextOperation>)
    requires Editable(ops, actor, counter) && Bounds(Text(ops), value, p, s, hi, w) && Acyclic(mid)
    requires p <= hi <= |Text(ops)| == |Visible(ops)| && (p == hi || |ops| + (hi - p) <= MAX_OPERATIONS)
    requires mid == Merge(ops, DeleteOps(actor, counter, clock, Visible(ops)[p..hi])).ops
    requires InsertSpec(mid, actor, counter + (hi - p), clock, p, w, ops', counter'', created)
    requires Editable(ops', actor, counter'')
    ensures ReplaceSpec(ops, actor, counter, clock, value, p, s, hi, w, ops', true)
  {
    ReplaceTypes(ops, mid, ops', actor, counter, counter'', clock, p, hi, w, created);
    ReplaceMeetsSpec(ops, actor, counter, clock, value, p, s, hi, w, ops');
  }

  lemma ReplaceRefused(
    ops: Operations, mid: Operations, actor: string, counter: nat, counter': nat, clock: Clock, value: string,
    p: nat, s: nat, hi: nat, w: string, r: Result<seq<TextOperation>>)
    requires Editable(ops, actor, counter) && Bounds(Text(ops), value, p, s, hi, w) && r.Err?
    requires DeleteSpec(ops, actor, counter, clock, p, hi, mid, counter', r) && DeletedSlice(ops, p, hi, mid, r.Ok?)
    ensures ReplaceSpec(ops, actor, counter, clock, value, p, s, hi, w, mid, false)
  {
    TextLength(ops);
    ReplaceDeletes(ops, mid, actor, counter, counter', clock, p, hi, r);
  }

  lemma InsertDone(
    ops: Operations, actor: string, counter: nat, clock: Clock, position: int, text: string, visible: seq<string>,
    p: nat, after: string, ops': Operations, counter': nat, created: seq<TextOperation>)
    requires Acyclic(ops) && visible == Visible(ops) && p == Clamp(position, 0, |visible|)
    requires after == if p > 0 then visible[p-1] else ROOT
    requires ops' == AddChars(ops, actor, counter, clock, after, text) && counter' == counter + |text|
    requires created == CharOps(actor, counter, clock, after, text)
    ensures InsertSpec(ops, actor, counter, clock, position, text, ops', counter', created)
    ensures Editable(ops, actor, counter) ==> Editable(ops', actor, counter')
    ensures Editable(ops, actor, counter) && text != "" ==> TypedAt(ops, ops', actor, counter, p, text)
    ensures Editable(ops, actor, counter) ==> Recorded(ops, created, ops', text)
  {
    assert after == AnchorAt(ops, p);
    VisibleFacts(ops);
    if p > 0 { assert visible[p-1] in Visible(ops); }
    if Editable(ops, actor, counter) {
      CreatedReplicates(ops, actor, counter, clock, after, text);
      EditableAfterTyping(ops, actor, counter, clock, p, text);
      if text != "" { TypingLaw(ops, actor, counter, clock, p, text); }
    }
  }

  lemma DeleteDone(ops: Operations, actor: string, counter: nat, clock: Clock, lo: nat, hi: nat)
    requires Editable(ops, actor, counter) && lo <= hi <= |Visible(ops)|
    ensures var r := Merge(ops, DeleteOps(actor, counter, clock, Visible(ops)[lo..hi]));
            && (r.outcome.Ok? <==> lo == hi || |ops| + (hi - lo) <= MAX_OPERATIONS)
            && (r.outcome.Ok? ==>
               Editable(r.ops, actor, counter + (hi - lo)) && Visible(r.ops) == Visible(ops)[..lo] + Visible(ops)[hi..])
  {
    DeletingLaw(ops, actor, counter, clock, lo, hi);
    if lo == hi || |ops| + (hi - lo) <= MAX_OPERATIONS { EditableAfterDeleting(ops, actor, counter, clock, lo, hi); }
  }

  /** Recording a replacement: first its deletions, then what was typed. */
  lemma RecordedAfter(
    ops: Operations, actor: string, counter: nat, clock: Clock, start: int, end: int, mid: Operations, counter': nat,
    r: Result<seq<TextOperation>>, created: seq<TextOperation>, ops': Operations, w: string)
    requires Acyclic(ops) && DeleteSpec(ops, actor, counter, clock, start, end, mid, counter', r) && r.Ok?
    requires Recorded(mid, created, ops', w)
    ensures Recorded(ops, r.value + created, ops', w)
  {
    assert Merge(ops, r.value).ops == mid && Merge(ops, r.value).outcome.Ok?;
    MergeConcat(ops, r.value, created);
  }

  // ----- The document -----

  class TextCRDT {
    const actor: string
    var operations: Operations
    var counter: nat

    ghost predicate Valid()
      reads this
    {
      WellKeyed(operations) && SafeActor(actor)
    }

    /** The state in which edits obey the typing and deleting laws. */
    ghost predicate Sound()
      reads this
    {
      Editable(operations, actor, counter)
    }

    constructor (actor: string)
      requires SafeActor(actor)
      ensures Valid() && Sound() && this.actor == actor && operations == map[] && counter == 0
    {
      this.actor := actor;
      operations := map[];
      counter := 0;
      new;
      EmptyIsEditable(actor);
    }

    /** A document built from stored operations; its counter catches up with the actor's own. */
    static method Load(actor: string, stored: seq<TextOperation>) returns (r: Result<TextCRDT>)
      requires SafeActor(actor)
      ensures r.Ok? <==> Merge(map[], stored).outcome.Ok?
      ensures r.Err? ==> Merge(map[], stored).outcome == Err(r.error)
      ensures r.Ok? ==> fresh(r.value) && r.value.Valid() && r.value.actor == actor
      ensures r.Ok? ==> r.value.operations == Merge(map[], stored).ops
      ensures r.Ok? ==> OwnCountersUpTo(r.value.operations, actor, r.value.counter)
      ensures r.Ok? ==> r.value.counter == 0 ||
                        exists id <- r.value.operations :: r.value.operations[id].actor == actor
                            && r.value.operations[id].counter == r.value.counter
      ensures r.Ok? && CanonicalIds(r.value.operations) ==>
                (r.value.Sound() <==>
                  && Acyclic(r.value.operations) && SingleChars(r.value.operations)
                  && forall id <- r.value.operations :: RefersBack(r.value.operations[id], actor, r.value.counter))
    {
      var doc := new TextCRDT(actor);
      var merged := doc.TakeOperations(stored);
      if merged.Err? { return Err(merged.error); }
      doc.CatchUp();
      if CanonicalIds(doc.operations) { CaughtUpIsFresh(doc.operations, actor, doc.counter); }
      return Ok(doc);
    }

    /** counter becomes the largest own counter, 0 when there is none. */
    method CatchUp()
      modifies this`counter
      ensures OwnCountersUpTo(operations, actor, counter)
      ensures counter == 0 || exists id <- operations ::
              operations[id].actor == actor && operations[id].counter == counter
    {
      counter := 0;
      var todo := operations.Keys;
      while todo != {}
        invariant todo <= operations.Keys
        invariant forall id <- operations :: id !in todo && operations[id].actor == actor ==>
                  operations[id].counter <= counter
        invariant counter == 0 || exists id <- operations ::
                  operations[id].actor == actor && operations[id].counter == counter
      {
        var id :| id in todo;
        if operations[id].actor == actor && operations[id].counter > counter { counter := operations[id].counter; }
        todo := todo - {id};
      }
    }

    /** Merges what was received; the document stays editable exactly when that is harmless and the
        whole is still a forest. */
    method MergeOperations(incoming: seq<TextOperation>) returns (r: Result<()>)
      requires Valid()
      modifies this`operations
      ensures Valid() && operations == Merge(old(operations), incoming).ops
      ensures r == Merge(old(operations), incoming).outcome
      ensures old(Sound()) && r.Ok? ==> (Sound() <==> Acyclic(operations) && AllHarmless(incoming, actor, counter))
    {
      MergeKeyed(operations, incoming);
      if Sound() && Merge(operations, incoming).outcome.Ok? {
        MergeKeepsEditable(operations, incoming, actor, counter);
      }
      r := TakeOperations(incoming);
    }

    /** The merging loop; own deletions are recorded by it too. */
    method TakeOperations(incoming: seq<TextOperation>) returns (r: Result<()>)
      requires Valid()
      modifies this`operations
      ensures Valid() && operations == Merge(old(operations), incoming).ops
      ensures r == Merge(old(operations), incoming).outcome
    {
      MergeKeyed(operations, incoming);
      for i := 0 to |incoming|
        invariant Merge(operations, incoming[i..]) == Merge(old(operations), incoming)
      {
        var operation := incoming[i];
        assert incoming[i..][0] == operation && incoming[i..][1..] == incoming[i+1..];
        if operation.operationId in operations && operations[operation.operationId] != operation {
          return Err(ConflictingIdentifier);
        }
        operations := operations[operation.operationId := operation];
        if |operations| > MAX_OPERATIONS {
          return Err(SafetyLimit);
        }
      }
      return Ok(());
    }

    method VisibleIds() returns (r: Result<seq<string>>)
      requires Valid()
      ensures r.Ok? <==> Acyclic(operations)
      ensures r.Ok? ==> r.value == Visible(operations)
    {
      var ordered := Walker.OrderedIds(operations);
      if ordered.Err? { return Err(ordered.error); }
      return Ok(Without(ordered.value, Deleted(operations)));
    }

    method GetText() returns (r: Result<string>)
      requires Valid()
      ensures r.Ok? <==> Acyclic(operations)
      ensures r.Ok? ==> r.value == Text(operations)
    {
      var visible := VisibleIds();
      if visible.Err? { return Err(visible.error); }
      VisibleFacts(operations);
      return Ok(Render(operations, visible.value));
    }

    /** Types text behind a character (or ROOT), one operation a character. */
    method TypeBehind(anchor: string, text: string, clock: Clock) returns (created: seq<TextOperation>)
      requires Valid()
      modifies this`operations, this`counter
      ensures Valid()
      ensures operations == AddChars(old(operations), actor, old(counter), clock, anchor, text)
      ensures counter == old(counter) + |text|
      ensures created == CharOps(actor, old(counter), clock, anchor, text)
    {
      created := [];
      var after := anchor;
      for i := 0 to |text|
        invariant WellKeyed(operations) && counter == old(counter) + i
        invariant AddChars(operations, actor, counter, clock, after, text[i..]) ==
                  AddChars(old(operations), actor, old(counter), clock, anchor, text)
        invariant created + CharOps(actor, counter, clock, after, text[i..]) ==
                  CharOps(actor, old(counter), clock, anchor, text)
      {
        assert text[i..][0] == text[i] && text[i..][1..] == text[i+1..];
        counter := counter + 1;
        var operation := NewInsert(actor, counter, clock, after, text[i]);
        operations := operations[operation.operationId := operation];
        created := created + [operation];
        after := operation.operationId;
      }
    }

    /** Types text at a position; the position is clamped to the visible text. */
    method InsertText(position: int, text: string, clock: Clock) returns (r: Result<seq<TextOperation>>)
      requires Valid()
      modifies this`operations, this`counter
      ensures Valid()
      ensures r.Ok? <==> old(Acyclic(operations))
      ensures r.Err? ==> operations == old(operations) && counter == old(counter)
      ensures r.Ok? ==>
        InsertSpec(old(operations), actor, old(counter), clock, position, text, operations, counter, r.value)
      ensures old(Sound()) ==> Sound()
      ensures old(Sound()) && text != "" ==>
        var p := Clamp(position, 0, |Visible(old(operations))|);
        TypedAt(old(operations), operations, actor, old(counter), p, text)
      ensures old(Sound()) && r.Ok? ==> Recorded(old(operations), r.value, operations, text)
    {
      var visible := VisibleIds();
      if visible.Err? { return Err(visible.error); }
      var p := Clamp(position, 0, |visible.value|);
      var after := if p > 0 then visible.value[p-1] else ROOT;
      var created := TypeBehind(after, text, clock);
      InsertDone(old(operations), actor, old(counter), clock, position, text, visible.value, p, after, operations,
          counter, created);
      return Ok(created);
    }

    /** Deletes the visible characters of a Python slice. */
    method DeleteText(start: int, end: int, clock: Clock) returns (r: Result<seq<TextOperation>>)
      requires Valid()
      modifies this`operations, this`counter
      ensures Valid()
      ensures !old(Acyclic(operations)) ==> r.Err? && operations == old(operations) && counter == old(counter)
      ensures old(Acyclic(operations)) ==>
        DeleteSpec(old(operations), actor, old(counter), clock, start, end, operations, counter, r)
      ensures old(Sound()) ==> DeletedSlice(old(operations), start, end, operations, r.Ok?) && (r.Ok? ==> Sound())
    {
      var visible := VisibleIds();
      if visible.Err? { return Err(visible.error); }
      var v := visible.value;
      var lo, hi := Clamp(start, 0, |v|), SliceEnd(start, end, |v|);
      var created := DeleteOps(actor, counter, clock, v[lo..hi]);
      counter := counter + (hi - lo);
      var merged := TakeOperations(created);
      if old(Sound()) {
        DeleteDone(old(operations), actor, old(counter), clock, lo, hi);
      }
      return if merged.Err? then Err(merged.error) else Ok(created);
    }

    /** Edits the document towards value: deletes the old middle [p, hi), then types the new middle w. */
    method ReplaceText(value: string, clock: Clock)
      returns (r: Result<seq<TextOperation>>, ghost p: nat, ghost s: nat, ghost hi: nat, ghost w: string)
      requires Valid()
      modifies this`operations, this`counter
      ensures Valid()
      ensures !old(Acyclic(operations)) ==> r.Err? && operations == old(operations) && counter == old(counter)
      ensures old(Sound()) ==>
        ReplaceSpec(old(operations), actor, old(counter), clock, value, p, s, hi, w, operations, r.Ok?)
      ensures old(Sound()) && r.Ok? ==> Sound() && Recorded(old(operations), r.value, operations, w)
    {
      p, s, hi, w := 0, 0, 0, "";
      ghost var ops, count, sound := operations, counter, Sound();
      var text := GetText();
      if text.Err? { r := Err(text.error); return; }
      var old' := text.value;
      var prefix, suffix := ReplaceBounds(old', value);
      p, s, hi, w := prefix, suffix, |old'| - suffix, value[prefix..|value|-suffix];
      var deleted := DeleteText(prefix, |old'| - suffix, clock);
      ghost var mid, count' := operations, counter;
      if deleted.Err? {
        r := Err(deleted.error);
        if sound { ReplaceRefused(ops, mid, actor, count, count', clock, value, p, s, hi, w, deleted); }
      } else {
        var inserted := InsertText(prefix, value[prefix..|value|-suffix], clock);
        r := if inserted.Err? then Err(inserted.error) else Ok(deleted.value + inserted.value);
        if sound {
          RecordedAfter(ops, actor, count, clock, p, hi, mid, count', deleted, inserted.value, operations, w);
          ReplaceDone(ops, mid, operations, actor, count, count', counter, clock, value, p, s, hi, w, deleted,
              inserted.value);
        }
      }
    }

    /** The two counting loops: how much of the text's start and end stays. */
    static method ReplaceBounds(a: string, b: string) returns (prefix: nat, suffix: nat)
      ensures IsCommonPrefix(a, b, prefix) && IsCommonSuffix(a, b, prefix, suffix)
    {
      prefix := 0;
      while prefix < |a| && prefix < |b| && a[prefix] == b[prefix]
        invariant prefix <= |a| && prefix <= |b| && a[..prefix] == b[..prefix]
      {
        prefix := prefix + 1;
      }
      suffix := 0;
      while suffix < |a| - prefix && suffix < |b| - prefix && a[|a|-suffix-1] == b[|b|-suffix-1]
        invariant prefix + suffix <= |a| && prefix + suffix <= |b| && a[|a|-suffix..] == b[|b|-suffix..]
      {
        suffix := suffix + 1;
      }
    }
  }
}
