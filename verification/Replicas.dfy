/** Several devices edit one document and exchange operations in any portions: whatever has arrived
    where, every device's document stays one on which the typing, deleting and replacing laws hold. */
module Replicas {
  import opened Decimal
  import opened TextOperations
  import opened OperationForest
  import opened Convergence
  import opened Editing
  import opened Replacing
  import opened TypedRuns

  datatype Replica = Replica(ops: Operations, counter: nat)

  /** world: every operation made and not lost in a crash; saved: those with a file, which is what other
      devices and a restart can see; replicas: the devices by actor. */
  datatype System = System(world: Operations, saved: Operations, replicas: map<string, Replica>)

  datatype Event =
    | Typed(actor: string, p: nat, w: string, clock: Clock)
    | Removed(actor: string, targets: seq<string>, clock: Clock, xs: seq<TextOperation>)  // xs: what that makes
    | Saved(actor: string, xs: seq<TextOperation>)                  // some own operations get their files
    | Received(actor: string, xs: seq<TextOperation>)               // any saved operations, in any order
    | Reloaded(actor: string, stored: Operations, counter: nat)     // a restart, perhaps after a crash

  /** All operations of the actor are among the stored ones, and the counter has caught up with them. */
  ghost predicate HoldsOwn(world: Operations, stored: Operations, actor: string, counter: nat) {
    && (forall id <- world :: world[id].actor == actor ==> id in stored)
    && OwnCountersUpTo(stored, actor, counter)
  }

  predicate IsIn(x: TextOperation, ops: Operations) {
    x.operationId in ops && ops[x.operationId] == x
  }

  /** A crash of the actor's device loses what it made and did not save. */
  function WithoutUnsaved(world: Operations, saved: Operations, actor: string): Operations {
    map id | id in world && (id in saved || world[id].actor != actor) :: world[id]
  }

  /** xs are the operations that delete some characters the device shows. */
  ghost predicate Deletes(r: Replica, actor: string, targets: seq<string>, clock: Clock, xs: seq<TextOperation>) {
    && Acyclic(r.ops) && (forall t <- targets :: t in Visible(r.ops))
    && xs == DeleteOps(actor, r.counter, clock, targets)
  }

  /** Files are written in an order in which whatever an operation refers to comes first. */
  ghost predicate Possible(s: System, e: Event) {
    && e.actor in s.replicas
    && var r := s.replicas[e.actor];
       match e
       case Typed(_, p, _, _) => Acyclic(r.ops) && p <= |Visible(r.ops)|
       case Removed(actor, targets, clock, xs) => Deletes(r, actor, targets, clock, xs)
       case Saved(_, xs) => (forall x <- xs :: IsIn(x, r.ops)) && RefersToMade(AddAll(s.saved, xs))
       case Received(_, xs) => forall x <- xs :: IsIn(x, s.saved)
       case Reloaded(actor, stored, counter) => Submap(stored, s.saved) && HoldsOwn(s.saved, stored, actor, counter)
  }

  function AddAll(world: Operations, xs: seq<TextOperation>): Operations
    decreases |xs|
  {
    if xs == [] then world else AddAll(With(world, xs[0]), xs[1..])
  }

  ghost function Step(s: System, e: Event): System
    requires Possible(s, e)
  {
    var r := s.replicas[e.actor];
    match e
    case Typed(actor, p, w, clock) =>
      var after := AnchorAt(r.ops, p);
      System(AddChars(s.world, actor, r.counter, clock, after, w), s.saved,
             s.replicas[actor := Replica(AddChars(r.ops, actor, r.counter, clock, after, w), r.counter + |w|)])
    case Removed(actor, _, _, xs) =>
      System(AddAll(s.world, xs), s.saved, s.replicas[actor := Replica(Merge(r.ops, xs).ops, r.counter + |xs|)])
    case Saved(actor, xs) => s.(saved := AddAll(s.saved, xs))
    case Received(actor, xs) => s.(replicas := s.replicas[actor := r.(ops := Merge(r.ops, xs).ops)])
    case Reloaded(actor, stored, counter) =>
      System(WithoutUnsaved(s.world, s.saved, actor), s.saved, s.replicas[actor := Replica(stored, counter)])
  }

  // ----- What all operations together satisfy -----

  /** Every parent and every target has been made. */
  ghost predicate RefersToMade(world: Operations) {
    forall id <- world :: IsAnchor(world, world[id].after) && (world[id].target == "" || world[id].target in world)
  }

  ghost predicate Made(world: Operations) {
    WellKeyed(world) && CanonicalIds(world) && Acyclic(world) && SingleChars(world) && RefersToMade(world)
  }

  lemma MadeIsFresh(world: Operations, actor: string, counter: nat)
    requires Made(world) && SafeActor(actor) && OwnCountersUpTo(world, actor, counter)
    ensures Fresh(world, actor, counter)
  {
    forall id <- world ensures RefersBack(world[id], actor, counter) {
      forall c | c > counter ensures world[id].after != MakeId(actor, c) && world[id].target != MakeId(actor, c) {
        NotMade(world, actor, counter, c);
        ColonInId(actor, c);
        NotRoot(actor, c);
      }
    }
    CaughtUpIsFresh(world, actor, counter);
  }

  /** A device makes unused identifiers if and only if its counter is not behind any of its operations that
      are not lost: a restart without one of its own operation files can reuse an identifier. */
  lemma FreshExactly(world: Operations, actor: string, counter: nat)
    requires Made(world) && SafeActor(actor)
    ensures Fresh(world, actor, counter) <==> OwnCountersUpTo(world, actor, counter)
  {
    if OwnCountersUpTo(world, actor, counter) {
      MadeIsFresh(world, actor, counter);
    } else {
      var id :| id in world && world[id].actor == actor && world[id].counter > counter;
      assert !Unmentioned(world, MakeId(actor, world[id].counter));
    }
  }

  lemma NotMade(world: Operations, actor: string, counter: nat, c: nat)
    requires CanonicalIds(world) && SafeActor(actor) && OwnCountersUpTo(world, actor, counter) && c > counter
    ensures MakeId(actor, c) !in world
  {
    var id := MakeId(actor, c);
    if id in world { IdInjective(actor, c, world[id].actor, world[id].counter); }
  }

  /** A part of the world is editable by whoever is not behind with the own counters. */
  lemma PartIsEditable(world: Operations, part: Operations, actor: string, counter: nat)
    requires Made(world) && Submap(part, world) && SafeActor(actor) && OwnCountersUpTo(world, actor, counter)
    ensures Editable(part, actor, counter)
  {
    MadeIsFresh(world, actor, counter);
    PartOfForest(part, world);
    forall c | c > counter ensures Unmentioned(part, MakeId(actor, c)) { assert Unmentioned(world, MakeId(actor, c)); }
    forall id <- Inserts(part) ensures |part[id].value| == 1 { assert id in Inserts(world); }
  }

  lemma OneMadeInsert(world: Operations, actor: string, counter: nat, clock: Clock, after: string, ch: char)
    requires Made(world) && Fresh(world, actor, counter) && IsAnchor(world, after)
    ensures var x := NewInsert(actor, counter + 1, clock, after, ch);
            && x.operationId !in world && Made(With(world, x)) && Fresh(With(world, x), actor, counter + 1)
            && IsAnchor(With(world, x), x.operationId)
  {
    var x := NewInsert(actor, counter + 1, clock, after, ch);
    OneCharAdded(world, actor, counter, clock, after, ch);
    NewCharParents(world, x);
    NewCharPath(world, x);
    FreshAfterInsert(world, actor, counter, clock, after, ch);
    var world' := With(world, x);
    forall id <- Inserts(world') ensures |world'[id].value| == 1 {
      if id != x.operationId { assert id in Inserts(world); }
    }
    forall id <- world'
      ensures IsAnchor(world', world'[id].after) && (world'[id].target == "" || world'[id].target in world') {
      if id != x.operationId { assert IsAnchor(world, world[id].after); }
    }
  }

  lemma OneMadeDelete(world: Operations, actor: string, counter: nat, clock: Clock, target: string)
    requires Made(world) && Fresh(world, actor, counter) && target in world
    ensures var x := NewDelete(actor, counter + 1, clock, target);
            && x.operationId !in world && Made(With(world, x)) && Fresh(With(world, x), actor, counter + 1)
  {
    var x := NewDelete(actor, counter + 1, clock, target);
    FreshAfterDelete(world, actor, counter, clock, target);
    var world' := With(world, x);
    DeletesKeepOrder(world, world');
    forall id <- world'
      ensures IsAnchor(world', world'[id].after) && (world'[id].target == "" || world'[id].target in world') {
      if id != x.operationId { assert IsAnchor(world, world[id].after); }
    }
  }

  /** Making operations adds to the world under one actor's next counters. */
  ghost predicate Extends(world: Operations, world': Operations, actor: string, counter: nat) {
    && Submap(world, world')
    && (forall id <- world' :: id in world || (world'[id].actor == actor && world'[id].counter <= counter))
  }

  lemma ExtendsOnce(world: Operations, x: TextOperation, actor: string, counter: nat)
    requires x.operationId !in world && x.actor == actor && x.counter <= counter
    ensures Extends(world, With(world, x), actor, counter)
  {
  }

  lemma ExtendsTwice(a: Operations, b: Operations, c: Operations, actor: string, counter: nat, counter': nat)
    requires Extends(a, b, actor, counter) && Extends(b, c, actor, counter') && counter <= counter'
    ensures Extends(a, c, actor, counter')
  {
  }

  lemma {:induction false} TypingMakes(world: Operations, actor: string, counter: nat, clock: Clock, after: string,
      w: string)
    requires Made(world) && Fresh(world, actor, counter) && IsAnchor(world, after)
    ensures var world' := AddChars(world, actor, counter, clock, after, w);
            Made(world') && Extends(world, world', actor, counter + |w|)
    decreases |w|
  {
    if w != "" {
      var x := NewInsert(actor, counter + 1, clock, after, w[0]);
      OneMadeInsert(world, actor, counter, clock, after, w[0]);
      TypingMakes(With(world, x), actor, counter + 1, clock, x.operationId, w[1..]);
      ExtendsOnce(world, x, actor, counter + 1);
      ExtendsTwice(world, With(world, x), AddChars(world, actor, counter, clock, after, w), actor, counter + 1,
          counter + |w|);
    }
  }

  lemma FirstRemoved(world: Operations, actor: string, counter: nat, clock: Clock, targets: seq<string>)
      returns (next: Operations)
    requires Made(world) && Fresh(world, actor, counter) && targets != [] && forall t <- targets :: t in world
    ensures Made(next) && Fresh(next, actor, counter + 1) && Extends(world, next, actor, counter + 1)
    ensures forall t <- targets[1..] :: t in next
    ensures AddAll(world, DeleteOps(actor, counter, clock, targets)) ==
            AddAll(next, DeleteOps(actor, counter + 1, clock, targets[1..]))
  {
    var x := NewDelete(actor, counter + 1, clock, targets[0]);
    var xs := DeleteOps(actor, counter, clock, targets);
    next := With(world, x);
    OneMadeDelete(world, actor, counter, clock, targets[0]);
    ExtendsOnce(world, x, actor, counter + 1);
    assert xs[0] == x && xs[1..] == DeleteOps(actor, counter + 1, clock, targets[1..]);
    forall t <- targets[1..] ensures t in next { assert t in targets; }
  }

  lemma {:induction false} RemovingMakes(world: Operations, actor: string, counter: nat, clock: Clock,
      targets: seq<string>)
    requires Made(world) && Fresh(world, actor, counter) && forall t <- targets :: t in world
    ensures var world' := AddAll(world, DeleteOps(actor, counter, clock, targets));
            Made(world') && Extends(world, world', actor, counter + |targets|)
    decreases |targets|
  {
    if targets != [] {
      var next := FirstRemoved(world, actor, counter, clock, targets);
      RemovingMakes(next, actor, counter + 1, clock, targets[1..]);
      ExtendsTwice(world, next, AddAll(next, DeleteOps(actor, counter + 1, clock, targets[1..])), actor, counter + 1,
          counter + |targets|);
    }
  }

  /** Operations under different identifiers that are not in use yet are all in the world afterwards. */
  lemma {:induction false} AddAllHolds(world: Operations, xs: seq<TextOperation>)
    requires forall x <- xs :: x.operationId !in world
    requires forall i, j :: 0 <= i < j < |xs| ==> xs[i].operationId != xs[j].operationId
    ensures Submap(world, AddAll(world, xs))
    ensures forall x <- xs :: x.operationId in AddAll(world, xs) && AddAll(world, xs)[x.operationId] == x
    decreases |xs|
  {
    if xs != [] {
      var rest := xs[1..];
      forall y <- rest ensures y.operationId !in With(world, xs[0]) {
        var j :| 0 <= j < |rest| && rest[j] == y;
        assert y == xs[j+1] && y in xs;
      }
      AddAllHolds(With(world, xs[0]), rest);
      assert xs[0].operationId in With(world, xs[0]);
      assert forall y <- xs :: y == xs[0] || y in rest;
    }
  }

  lemma FreshApart(world: Operations, actor: string, counter: nat, xs: seq<TextOperation>)
    requires Fresh(world, actor, counter)
    requires forall i :: 0 <= i < |xs| ==> xs[i].operationId == MakeId(actor, counter + 1 + i)
    ensures forall x <- xs :: x.operationId !in world
    ensures forall i, j :: 0 <= i < j < |xs| ==> xs[i].operationId != xs[j].operationId
  {
    forall i, j | 0 <= i < j < |xs| ensures xs[i].operationId != xs[j].operationId {
      if xs[i].operationId == xs[j].operationId { IdInjective(actor, counter + 1 + i, actor, counter + 1 + j); }
    }
    forall x <- xs ensures x.operationId !in world {
      var i :| 0 <= i < |xs| && xs[i] == x;
      assert Unmentioned(world, MakeId(actor, counter + 1 + i));
    }
  }

  lemma FreshAdded(world: Operations, actor: string, counter: nat, xs: seq<TextOperation>)
    requires Fresh(world, actor, counter)
    requires forall i :: 0 <= i < |xs| ==> xs[i].operationId == MakeId(actor, counter + 1 + i)
    ensures forall x <- xs :: IsIn(x, AddAll(world, xs))
  {
    FreshApart(world, actor, counter, xs);
    AddAllHolds(world, xs);
  }

  // ----- What each replica holds -----

  lemma {:induction false} TypingWithin(part: Operations, world: Operations, actor: string, counter: nat,
      clock: Clock, after: string, w: string)
    requires Submap(part, world)
    ensures Submap(AddChars(part, actor, counter, clock, after, w), AddChars(world, actor, counter, clock, after, w))
    decreases |w|
  {
    if w != "" {
      var x := NewInsert(actor, counter + 1, clock, after, w[0]);
      TypingWithin(With(part, x), With(world, x), actor, counter + 1, clock, x.operationId, w[1..]);
    }
  }

  /** Merging operations of the world, even when it stops half-way, stays within the world. */
  lemma {:induction false} MergeWithin(part: Operations, xs: seq<TextOperation>, world: Operations)
    requires Submap(part, world) && forall x <- xs :: IsIn(x, world)
    ensures Submap(Merge(part, xs).ops, world)
    decreases |xs|
  {
    if xs != [] {
      assert xs[0] in xs && forall x :: x in xs[1..] ==> x in xs;
      MergeWithin(With(part, xs[0]), xs[1..], world);
    }
  }

  /** What a device holds is saved or its own. */
  ghost predicate ReplicaFits(world: Operations, saved: Operations, actor: string, r: Replica) {
    && SafeActor(actor) && Submap(r.ops, world) && OwnCountersUpTo(world, actor, r.counter)
    && forall id <- r.ops :: id in saved || r.ops[id].actor == actor
  }

  /** Something saved, or an operation of the actor. */
  predicate OwnOrSaved(world: Operations, saved: Operations, actor: string, id: string) {
    id in saved || (id in world && world[id].actor == actor)
  }

  /** The operation refers to nothing else. */
  predicate RefersToOwn(world: Operations, saved: Operations, x: TextOperation) {
    && (x.after == ROOT || OwnOrSaved(world, saved, x.actor, x.after))
    && (x.target == "" || OwnOrSaved(world, saved, x.actor, x.target))
  }

  /** What is not saved refers to nothing unsaved of another device: a crash there does not touch it. */
  ghost predicate Independent(world: Operations, saved: Operations) {
    forall id <- world :: id in saved || RefersToOwn(world, saved, world[id])
  }

  ghost predicate Inv(s: System) {
    && Made(s.world) && Submap(s.saved, s.world) && RefersToMade(s.saved) && Independent(s.world, s.saved)
    && forall actor <- s.replicas :: ReplicaFits(s.world, s.saved, actor, s.replicas[actor])
  }

  // ----- Independence -----

  lemma OneMoreIndependent(world: Operations, saved: Operations, x: TextOperation)
    requires Independent(world, saved) && x.operationId !in world
    requires RefersToOwn(world, saved, x)
    ensures Independent(With(world, x), saved)
  {
    var world' := With(world, x);
    forall id <- world' ensures id in saved || RefersToOwn(world', saved, world'[id]) {
      if id == x.operationId {
        RefersStill(world, saved, x, x);
      } else {
        assert id in world && world'[id] == world[id];
        if id !in saved { RefersStill(world, saved, x, world[id]); }
      }
    }
  }

  lemma RefersStill(world: Operations, saved: Operations, x: TextOperation, y: TextOperation)
    requires RefersToOwn(world, saved, y) && x.operationId !in world
    ensures RefersToOwn(With(world, x), saved, y)
  {
  }

  lemma {:induction false} TypingIndependent(
    world: Operations, saved: Operations, actor: string, counter: nat, clock: Clock, after: string, w: string)
    requires Made(world) && Fresh(world, actor, counter) && IsAnchor(world, after) && Independent(world, saved)
    requires after == ROOT || OwnOrSaved(world, saved, actor, after)
    ensures Independent(AddChars(world, actor, counter, clock, after, w), saved)
    decreases |w|
  {
    if w != "" {
      var x := NewInsert(actor, counter + 1, clock, after, w[0]);
      OneMadeInsert(world, actor, counter, clock, after, w[0]);
      OneMoreIndependent(world, saved, x);
      TypingIndependent(With(world, x), saved, actor, counter + 1, clock, x.operationId, w[1..]);
    }
  }

  lemma {:induction false} RemovingIndependent(world: Operations, saved: Operations, actor: string,
      xs: seq<TextOperation>)
    requires Independent(world, saved)
    requires forall x <- xs :: x.actor == actor && x.operationId !in world && x.after == ROOT
    requires forall x <- xs :: OwnOrSaved(world, saved, actor, x.target)
    requires forall i, j :: 0 <= i < j < |xs| ==> xs[i].operationId != xs[j].operationId
    ensures Independent(AddAll(world, xs), saved)
    decreases |xs|
  {
    if xs != [] {
      var rest, next := xs[1..], With(world, xs[0]);
      assert xs[0] in xs;
      OneMoreIndependent(world, saved, xs[0]);
      forall y <- rest ensures y in xs && y.operationId != xs[0].operationId {
        var j :| 0 <= j < |rest| && rest[j] == y;
        assert y == xs[j+1];
      }
      RemovingIndependent(next, saved, actor, rest);
    }
  }

  // ----- Every step -----

  lemma OthersFit(
    world: Operations, world': Operations, saved: Operations, actor: string, counter: nat, other: string, r: Replica)
    requires ReplicaFits(world, saved, other, r) && Extends(world, world', actor, counter) && other != actor
    ensures ReplicaFits(world', saved, other, r)
  {
  }

  lemma OwnFits(world: Operations, world': Operations, saved: Operations, actor: string, r: Replica, r': Replica)
    requires ReplicaFits(world, saved, actor, r) && Extends(world, world', actor, r'.counter)
    requires r.counter <= r'.counter && Submap(r'.ops, world')
    requires forall id <- r'.ops :: id in saved || r'.ops[id].actor == actor
    ensures ReplicaFits(world', saved, actor, r')
  {
  }

  lemma ChangeFits(s: System, actor: string, world': Operations, r': Replica)
    requires Inv(s) && actor in s.replicas && Made(world') && Extends(s.world, world', actor, r'.counter)
    requires ReplicaFits(world', s.saved, actor, r') && Independent(world', s.saved)
    ensures Inv(System(world', s.saved, s.replicas[actor := r']))
  {
    var s' := System(world', s.saved, s.replicas[actor := r']);
    forall other <- s'.replicas ensures ReplicaFits(world', s.saved, other, s'.replicas[other]) {
      if other != actor { OthersFit(s.world, world', s.saved, actor, r'.counter, other, s.replicas[other]); }
    }
  }

  lemma {:induction false} TypedOnes(ops: Operations, actor: string, counter: nat, clock: Clock, after: string,
      w: string)
    ensures forall id <- AddChars(ops, actor, counter, clock, after, w) ::
              (id in ops && AddChars(ops, actor, counter, clock, after, w)[id] == ops[id])
              || AddChars(ops, actor, counter, clock, after, w)[id].actor == actor
    decreases |w|
  {
    if w != "" {
      var x := NewInsert(actor, counter + 1, clock, after, w[0]);
      TypedOnes(With(ops, x), actor, counter + 1, clock, x.operationId, w[1..]);
    }
  }

  lemma {:induction false} MergedOnes(ops: Operations, xs: seq<TextOperation>)
    ensures forall id <- Merge(ops, xs).ops ::
              (id in ops && Merge(ops, xs).ops[id] == ops[id])
              || (Merge(ops, xs).ops[id] in xs && Merge(ops, xs).ops[id].operationId == id)
    decreases |xs|
  {
    if xs != [] { MergedOnes(With(ops, xs[0]), xs[1..]); }
  }

  lemma TypedKeeps(s: System, e: Event)
    requires Inv(s) && Possible(s, e) && e.Typed?
    ensures Inv(Step(s, e))
  {
    var r := s.replicas[e.actor];
    var after := AnchorAt(r.ops, e.p);
    assert IsAnchor(s.world, after) && (after == ROOT || OwnOrSaved(s.world, s.saved, e.actor, after)) by {
      VisibleFacts(r.ops);
      if e.p > 0 { assert after in Visible(r.ops); }
    }
    MadeIsFresh(s.world, e.actor, r.counter);
    TypingMakes(s.world, e.actor, r.counter, e.clock, after, e.w);
    TypingIndependent(s.world, s.saved, e.actor, r.counter, e.clock, after, e.w);
    TypingWithin(r.ops, s.world, e.actor, r.counter, e.clock, after, e.w);
    TypedOnes(r.ops, e.actor, r.counter, e.clock, after, e.w);
    var s' := Step(s, e);
    OwnFits(s.world, s'.world, s.saved, e.actor, r, s'.replicas[e.actor]);
    ChangeFits(s, e.actor, s'.world, s'.replicas[e.actor]);
  }

  /** What a device shows exists, and is saved or its own. */
  lemma ShownIsKnown(s: System, actor: string, targets: seq<string>)
    requires Inv(s) && actor in s.replicas && Acyclic(s.replicas[actor].ops)
    requires forall t <- targets :: t in Visible(s.replicas[actor].ops)
    ensures forall t <- targets :: t in s.world && OwnOrSaved(s.world, s.saved, actor, t)
  {
    VisibleFacts(s.replicas[actor].ops);
  }

  /** Deletions under the actor's next identifiers. */
  ghost predicate NextDeletions(xs: seq<TextOperation>, actor: string, counter: nat, targets: seq<string>) {
    && (forall i :: 0 <= i < |xs| ==> xs[i].operationId == MakeId(actor, counter + 1 + i))
    && (forall x <- xs :: x.actor == actor && x.after == ROOT && x.target in targets)
  }

  lemma DeletionsAreNext(actor: string, counter: nat, clock: Clock, targets: seq<string>)
    ensures NextDeletions(DeleteOps(actor, counter, clock, targets), actor, counter, targets)
  {
    var xs := DeleteOps(actor, counter, clock, targets);
    forall x <- xs ensures x.actor == actor && x.after == ROOT && x.target in targets {
      var i :| 0 <= i < |xs| && xs[i] == x;
      assert targets[i] in targets;
    }
  }

  lemma DeletionsIndependent(
    world: Operations, saved: Operations, actor: string, counter: nat, xs: seq<TextOperation>, targets: seq<string>)
    requires Independent(world, saved) && Fresh(world, actor, counter) && NextDeletions(xs, actor, counter, targets)
    requires forall t <- targets :: OwnOrSaved(world, saved, actor, t)
    ensures Independent(AddAll(world, xs), saved)
  {
    FreshApart(world, actor, counter, xs);
    RemovingIndependent(world, saved, actor, xs);
  }

  lemma DeletionsFit(
    world: Operations, saved: Operations, actor: string, counter: nat, part: Operations, xs: seq<TextOperation>,
    targets: seq<string>)
    requires Fresh(world, actor, counter) && NextDeletions(xs, actor, counter, targets)
    requires Submap(part, AddAll(world, xs)) && forall id <- part :: id in saved || part[id].actor == actor
    ensures Submap(Merge(part, xs).ops, AddAll(world, xs))
    ensures forall id <- Merge(part, xs).ops :: id in saved || Merge(part, xs).ops[id].actor == actor
  {
    FreshAdded(world, actor, counter, xs);
    MergeWithin(part, xs, AddAll(world, xs));
    MergedOnes(part, xs);
  }

  lemma DeletionsMade(
    world: Operations, saved: Operations, actor: string, r: Replica, clock: Clock, targets: seq<string>,
    xs: seq<TextOperation>)
    requires Made(world) && Independent(world, saved) && ReplicaFits(world, saved, actor, r)
    requires xs == DeleteOps(actor, r.counter, clock, targets)
    requires forall t <- targets :: t in world && OwnOrSaved(world, saved, actor, t)
    ensures Made(AddAll(world, xs)) && Independent(AddAll(world, xs), saved)
    ensures Extends(world, AddAll(world, xs), actor, r.counter + |xs|)
    ensures ReplicaFits(AddAll(world, xs), saved, actor, Replica(Merge(r.ops, xs).ops, r.counter + |xs|))
  {
    MadeIsFresh(world, actor, r.counter);
    RemovingMakes(world, actor, r.counter, clock, targets);
    DeletionsAreNext(actor, r.counter, clock, targets);
    DeletionsIndependent(world, saved, actor, r.counter, xs, targets);
    DeletionsFit(world, saved, actor, r.counter, r.ops, xs, targets);
    OwnFits(world, AddAll(world, xs), saved, actor, r, Replica(Merge(r.ops, xs).ops, r.counter + |xs|));
  }

  lemma RemovedKeeps(s: System, e: Event)
    requires Inv(s) && Possible(s, e) && e.Removed?
    ensures Inv(Step(s, e))
  {
    var r := s.replicas[e.actor];
    ShownIsKnown(s, e.actor, e.targets);
    DeletionsMade(s.world, s.saved, e.actor, r, e.clock, e.targets, e.xs);
    ChangeFits(s, e.actor, AddAll(s.world, e.xs), Replica(Merge(r.ops, e.xs).ops, r.counter + |e.xs|));
  }

  /** Saving own operations: they are in the world anyway. */
  lemma {:induction false} AddAllWithin(saved: Operations, xs: seq<TextOperation>, world: Operations)
    requires Submap(saved, world) && forall x <- xs :: IsIn(x, world)
    ensures Submap(AddAll(saved, xs), world) && saved.Keys <= AddAll(saved, xs).Keys
    decreases |xs|
  {
    if xs != [] {
      assert xs[0] in xs && forall x :: x in xs[1..] ==> x in xs;
      AddAllWithin(With(saved, xs[0]), xs[1..], world);
    }
  }

  lemma SavedKeeps(s: System, e: Event)
    requires Inv(s) && Possible(s, e) && e.Saved?
    ensures Inv(Step(s, e))
  {
    var saved := AddAll(s.saved, e.xs);
    assert ReplicaFits(s.world, s.saved, e.actor, s.replicas[e.actor]);
    AddAllWithin(s.saved, e.xs, s.world);
    assert Independent(s.world, saved);
    forall actor <- s.replicas ensures ReplicaFits(s.world, saved, actor, s.replicas[actor]) {
      assert ReplicaFits(s.world, s.saved, actor, s.replicas[actor]);
    }
  }

  lemma ReceivedKeeps(s: System, e: Event)
    requires Inv(s) && Possible(s, e) && e.Received?
    ensures Inv(Step(s, e))
  {
    var r := s.replicas[e.actor];
    assert forall x <- e.xs :: IsIn(x, s.world);
    MergeWithin(r.ops, e.xs, s.world);
    MergedOnes(r.ops, e.xs);
    ChangeFits(s, e.actor, s.world, Step(s, e).replicas[e.actor]);
  }

  // ----- Crashes -----

  lemma CrashMade(world: Operations, saved: Operations, actor: string)
    requires Made(world) && Submap(saved, world) && RefersToMade(saved) && Independent(world, saved)
    ensures var world' := WithoutUnsaved(world, saved, actor);
            Made(world') && Submap(world', world) && Submap(saved, world') && Independent(world', saved)
  {
    var world' := WithoutUnsaved(world, saved, actor);
    PartOfForest(world', world);
    forall id <- world'
      ensures IsAnchor(world', world'[id].after) && (world'[id].target == "" || world'[id].target in world') {
      CrashRefers(world, saved, actor, id);
    }
    forall id <- Inserts(world') ensures |world'[id].value| == 1 { assert id in Inserts(world); }
  }

  /** Whatever an operation that is not lost refers to is not lost either. */
  lemma CrashRefers(world: Operations, saved: Operations, actor: string, id: string)
    requires Made(world) && Submap(saved, world) && RefersToMade(saved) && Independent(world, saved)
    requires id in WithoutUnsaved(world, saved, actor)
    ensures var world' := WithoutUnsaved(world, saved, actor);
            IsAnchor(world', world[id].after) && (world[id].target == "" || world[id].target in world')
  {
    assert IsAnchor(world, world[id].after) && (world[id].target == "" || world[id].target in world);
    if id in saved {
      assert IsAnchor(saved, saved[id].after) && (saved[id].target == "" || saved[id].target in saved);
    } else {
      assert RefersToOwn(world, saved, world[id]);
    }
  }

  lemma ReloadedKeeps(s: System, e: Event)
    requires Inv(s) && Possible(s, e) && e.Reloaded?
    ensures Inv(Step(s, e))
  {
    var s' := Step(s, e);
    CrashMade(s.world, s.saved, e.actor);
    forall other <- s'.replicas ensures ReplicaFits(s'.world, s.saved, other, s'.replicas[other]) {
      assert ReplicaFits(s.world, s.saved, other, s.replicas[other]);
    }
  }

  lemma StepKeeps(s: System, e: Event)
    requires Inv(s) && Possible(s, e)
    ensures Inv(Step(s, e))
  {
    match e
    case Typed(_, _, _, _) => TypedKeeps(s, e);
    case Removed(_, _, _, _) => RemovedKeeps(s, e);
    case Saved(_, _) => SavedKeeps(s, e);
    case Received(_, _) => ReceivedKeeps(s, e);
    case Reloaded(_, _, _) => ReloadedKeeps(s, e);
  }

  // ----- Runs -----

  ghost predicate PossibleRun(s: System, run: seq<Event>)
    decreases |run|
  {
    run != [] ==> Possible(s, run[0]) && PossibleRun(Step(s, run[0]), run[1..])
  }

  ghost function After(s: System, run: seq<Event>): System
    requires PossibleRun(s, run)
    decreases |run|
  {
    if run == [] then s else After(Step(s, run[0]), run[1..])
  }

  lemma {:induction false} RunKeeps(s: System, run: seq<Event>)
    requires Inv(s) && PossibleRun(s, run)
    ensures Inv(After(s, run))
    decreases |run|
  {
    if run != [] {
      StepKeeps(s, run[0]);
      RunKeeps(Step(s, run[0]), run[1..]);
    }
  }

  /** Devices that start with nothing. */
  function Empty(actors: set<string>): System {
    System(map[], map[], map actor | actor in actors :: Replica(map[], 0))
  }

  /** In every run of typing, removing, saving, crashes, restarts and exchanges of any saved portions in
      any order, every device's document stays editable: it never fails to show, and each edit obeys its law. */
  lemma EveryReplicaStaysEditable(actors: set<string>, run: seq<Event>, actor: string)
    requires (forall a <- actors :: SafeActor(a)) && PossibleRun(Empty(actors), run)
    requires actor in After(Empty(actors), run).replicas
    ensures var r := After(Empty(actors), run).replicas[actor]; Editable(r.ops, actor, r.counter)
  {
    assert Inv(Empty(actors));
    RunKeeps(Empty(actors), run);
    var s := After(Empty(actors), run);
    PartIsEditable(s.world, s.replicas[actor].ops, actor, s.replicas[actor].counter);
  }

  /** Two devices that have every parent of what they hold read their common characters in one order. */
  lemma ReplicasAgreeOnOrder(s: System, a: string, b: string)
    requires Inv(s) && a in s.replicas && b in s.replicas && Closed(s.replicas[a].ops) && Closed(s.replicas[b].ops)
    ensures var A, B := s.replicas[a].ops, s.replicas[b].ops;
            && Acyclic(A) && Acyclic(B)
            && Without(Order(A), Inserts(A) - Inserts(B)) == Without(Order(B), Inserts(B) - Inserts(A))
  {
    var A, B, world := s.replicas[a].ops, s.replicas[b].ops, s.world;
    ClosedKeepsParents(A, world);
    ClosedKeepsParents(B, world);
    OrderStable(A, world);
    OrderStable(B, world);
    InsertsGrow(A, world);
    InsertsGrow(B, world);
    WithoutTwice(Order(world), Inserts(world) - Inserts(A), Inserts(A) - Inserts(B));
    WithoutTwice(Order(world), Inserts(world) - Inserts(B), Inserts(B) - Inserts(A));
    assert (Inserts(world) - Inserts(A)) + (Inserts(A) - Inserts(B)) == Inserts(world) - Inserts(A) * Inserts(B);
    assert (Inserts(world) - Inserts(B)) + (Inserts(B) - Inserts(A)) == Inserts(world) - Inserts(A) * Inserts(B);
  }

  /** Once everything made is saved, a device that receives all of it holds exactly that, whatever it held
      before: all such devices show one text. */
  lemma ReceivingAllConverges(s: System, actor: string, xs: seq<TextOperation>)
    requires Inv(s) && actor in s.replicas && s.saved == s.world && ListsAll(xs, s.saved) && |s.world| <= 250000
    ensures Possible(s, Received(actor, xs))
    ensures var r := Step(s, Received(actor, xs)).replicas[actor];
            r.ops == s.world && Acyclic(r.ops) && Acyclic(s.world) && Text(r.ops) == Text(s.world)
  {
    var part := s.replicas[actor].ops;
    assert WellKeyed(s.world);
    forall x <- xs ensures IsIn(x, s.saved) { }
    assert part.Keys <= s.world.Keys;
    SubsetOf(part.Keys, s.world.Keys);
    assert part + s.world == s.world;
    MergeOfReplicas(part, s.world, xs);
  }

  lemma SubsetOf(a: set<string>, b: set<string>)
    requires a <= b
    ensures |a| <= |b|
  {
    assert b == a + (b - a);
  }
}
