/** Listing the characters of a document with an explicit stack. */
module Walker {
  import opened Sequences
  import opened TextOperations
  import opened PathOrder
  import opened OperationForest
  import opened OrderedWalk

  function Ids(s: seq<TextOperation>): (r: seq<string>)
    ensures |r| == |s|
    ensures forall i :: 0 <= i < |s| ==> r[i] == s[i].operationId
  {
    seq(|s|, i requires 0 <= i < |s| => s[i].operationId)
  }

  /** cs holds each insert of done that hangs under parent, once. */
  ghost predicate Groups(ops: Operations, done: set<string>, parent: string, cs: seq<TextOperation>) {
    && (forall op <- cs ::
       op.operationId in done && op.operationId in ops && ops[op.operationId] == op
       && Parent(ops, op.operationId) == parent)
    && (forall id <- done :: id in ops && Parent(ops, id) == parent ==> ops[id] in cs)
    && (forall i, j :: 0 <= i < j < |cs| ==> cs[i] != cs[j])
  }

  function Get(children: map<string, seq<TextOperation>>, parent: string): seq<TextOperation> {
    if parent in children then children[parent] else []
  }

  method GroupByParent(ops: Operations) returns (children: map<string, seq<TextOperation>>)
    requires WellKeyed(ops)
    ensures forall parent :: Groups(ops, Inserts(ops), parent, Get(children, parent))
  {
    children := map[];
    var todo := Inserts(ops);
    ghost var done: set<string> := {};
    while todo != {}
      invariant todo + done == Inserts(ops) && todo !! done
      invariant forall parent :: Groups(ops, done, parent, Get(children, parent))
    {
      var id :| id in todo;
      var parent := Parent(ops, id);
      var before := children;
      children := children[parent := Get(children, parent) + [ops[id]]];
      forall p ensures Groups(ops, done + {id}, p, Get(children, p)) {
        assert Groups(ops, done, p, Get(before, p));
        assert ops[id].operationId == id;
      }
      todo, done := todo - {id}, done + {id};
    }
    assert done == Inserts(ops);
  }

  lemma KidsOf(ops: Operations, parent: string, cs: seq<TextOperation>)
    requires WellKeyed(ops) && Groups(ops, Inserts(ops), parent, cs)
    ensures AreKids(ops, parent, Ids(SortByKey(cs)))
    ensures forall op <- SortByKey(cs) :: op.operationId in ops && ops[op.operationId] == op
  {
    assert DistinctKeys(cs) by {
      forall i, j | 0 <= i < j < |cs| ensures KeyOf(cs[i]) != KeyOf(cs[j]) {
        assert cs[i] in cs && cs[j] in cs;
      }
    }
    SortByKeyAscends(cs);
    var kids := SortByKey(cs);
    forall id ensures id in Ids(kids) <==> id in Inserts(ops) && Parent(ops, id) == parent {
      if id in Ids(kids) {
        var i :| 0 <= i < |kids| && kids[i].operationId == id;
        assert kids[i] in cs;
      }
      if id in Inserts(ops) && Parent(ops, id) == parent {
        assert ops[id] in kids;
        var i :| 0 <= i < |kids| && kids[i] == ops[id];
        assert Ids(kids)[i] == id;
      }
    }
    forall i, j | 0 <= i < j < |kids|
      ensures kids[i].operationId in ops && kids[j].operationId in ops
      ensures KeyLess(KeyOf(ops[kids[i].operationId]), KeyOf(ops[kids[j].operationId]))
    {
      assert kids[i] in cs && kids[j] in cs;
    }
  }

  /** The identifiers on the stack, top first. */
  ghost function Pending(stack: seq<TextOperation>): seq<string> {
    Ids(Reversed(stack))
  }

  lemma PendingPop(stack: seq<TextOperation>)
    requires stack != []
    ensures Pending(stack) == [stack[|stack|-1].operationId] + Pending(stack[..|stack|-1])
  {
    ReversedConcat(stack[..|stack|-1], [stack[|stack|-1]]);
    assert stack == stack[..|stack|-1] + [stack[|stack|-1]];
    assert Reversed([stack[|stack|-1]]) == [stack[|stack|-1]];
  }

  lemma PendingPush(stack: seq<TextOperation>, kids: seq<TextOperation>)
    ensures Pending(stack + Reversed(kids)) == Ids(kids) + Pending(stack)
  {
    ReversedConcat(stack, Reversed(kids));
    ReversedTwice(kids);
  }

  ghost predicate AllInserts(ops: Operations, stack: seq<TextOperation>) {
    forall op <- stack :: op.operationId in Inserts(ops)
  }

  ghost predicate DistinctInserts(ops: Operations, ordered: seq<string>) {
    && (forall id <- ordered :: id in Inserts(ops))
    && (forall i, j :: 0 <= i < j < |ordered| ==> ordered[i] != ordered[j])
  }

  /** Both invariants of the walk; the first one needs the reserved name to be free. */
  ghost predicate LineInv(ops: Operations, ordered: seq<string>, pending: seq<string>) {
    && (ROOT !in Inserts(ops) ==> WalkInv(ops, ordered, pending))
    && RootInv(ops, ordered, pending)
  }

  ghost predicate StackInv(ops: Operations, ordered: seq<string>, stack: seq<TextOperation>) {
    && LineInv(ops, ordered, Pending(stack))
    && AllInserts(ops, stack)
    && DistinctInserts(ops, ordered)
  }

  lemma StackStart(ops: Operations, kids: seq<TextOperation>)
    requires WellKeyed(ops) && AreKids(ops, ROOT, Ids(kids))
    ensures StackInv(ops, [], Reversed(kids))
  {
    PendingPush([], kids);
    assert [] + Reversed(kids) == Reversed(kids) && Ids(kids) + Pending([]) == Ids(kids);
    assert [] + Ids(kids) == Ids(kids);
    if ROOT !in Inserts(ops) { WalkStart(ops, Ids(kids)); }
    StackIds(ops, kids);
  }

  lemma StackIds(ops: Operations, kids: seq<TextOperation>)
    requires forall id <- Ids(kids) :: id in Inserts(ops)
    ensures forall op <- Reversed(kids) :: op.operationId in Inserts(ops)
  {
    forall op <- Reversed(kids) ensures op.operationId in Inserts(ops) {
      ReversedMember(kids, op);
      var i :| 0 <= i < |kids| && kids[i] == op;
      assert Ids(kids)[i] == op.operationId;
    }
  }

  lemma LineStep(ops: Operations, ordered: seq<string>, c: string, rest: seq<string>, kids: seq<string>)
    requires WellKeyed(ops) && LineInv(ops, ordered, [c] + rest) && AreKids(ops, c, kids)
    ensures LineInv(ops, ordered + [c], kids + rest)
  {
    RootStep(ops, ordered, c, rest, kids);
    if ROOT !in Inserts(ops) { WalkStep(ops, ordered, c, rest, kids); }
  }

  lemma StackStep(ops: Operations, ordered: seq<string>, stack: seq<TextOperation>, kids: seq<TextOperation>)
    requires WellKeyed(ops) && stack != [] && StackInv(ops, ordered, stack)
    requires AreKids(ops, stack[|stack|-1].operationId, Ids(kids))
    requires stack[|stack|-1].operationId !in ordered
    ensures StackInv(ops, ordered + [stack[|stack|-1].operationId], stack[..|stack|-1] + Reversed(kids))
  {
    var top, below := stack[|stack|-1], stack[..|stack|-1];
    PendingPop(stack);
    PendingPush(below, kids);
    LineStep(ops, ordered, top.operationId, Pending(below), Ids(kids));
    StackMembers(ops, stack, kids);
    assert DistinctInserts(ops, ordered + [top.operationId]) by { assert top in stack; }
  }

  lemma StackMembers(ops: Operations, stack: seq<TextOperation>, kids: seq<TextOperation>)
    requires WellKeyed(ops) && stack != [] && AllInserts(ops, stack)
    requires AreKids(ops, stack[|stack|-1].operationId, Ids(kids))
    ensures AllInserts(ops, stack[..|stack|-1] + Reversed(kids))
  {
    StackIds(ops, kids);
  }

  lemma NoRevisit(ops: Operations, ordered: seq<string>, stack: seq<TextOperation>, kids: seq<string>)
    requires WellKeyed(ops) && stack != [] && StackInv(ops, ordered, stack)
    requires AreKids(ops, stack[|stack|-1].operationId, kids)
    requires stack[|stack|-1].operationId in ordered
    ensures !Acyclic(ops)
  {
    if ROOT !in Inserts(ops) {
      PendingPop(stack);
      WalkStep(ops, ordered, stack[|stack|-1].operationId, Pending(stack[..|stack|-1]), kids);
    }
  }

  lemma StackEnd(ops: Operations, ordered: seq<string>, visited: set<string>)
    requires WellKeyed(ops) && StackInv(ops, ordered, [])
    requires Lists(ordered, visited)
    ensures |visited| == |Inserts(ops)| <==> Acyclic(ops)
    ensures Acyclic(ops) ==> ordered == Order(ops)
  {
    assert visited <= Inserts(ops);
    SubsetSize(visited, Inserts(ops));
    RootNeverListed(ops, ordered);
    if ROOT !in Inserts(ops) {
      WalkEnd(ops, ordered);
      if Acyclic(ops) {
        assert visited == Inserts(ops);
        OrderIs(ops, ordered);
      }
    }
  }

  /** Lists the characters, or fails when the graph is not a forest. */
  method OrderedIds(ops: Operations) returns (r: Result<seq<string>>)
    requires WellKeyed(ops)
    ensures r.Ok? <==> Acyclic(ops)
    ensures r.Ok? ==> r.value == Order(ops)
    ensures r.Err? ==> r.error == CyclicGraph || r.error == UnreachableCycle
  {
    var inserts := Inserts(ops);
    var children := GroupByParent(ops);
    assert Groups(ops, inserts, ROOT, Get(children, ROOT));
    KidsOf(ops, ROOT, Get(children, ROOT));
    var ordered: seq<string> := [];
    var stack := Reversed(SortByKey(Get(children, ROOT)));
    StackStart(ops, SortByKey(Get(children, ROOT)));
    var visited: set<string> := {};
    while stack != []
      invariant StackInv(ops, ordered, stack)
      invariant Lists(ordered, visited)
      invariant visited <= inserts
      decreases inserts - visited
    {
      var child := stack[|stack|-1];
      assert child in stack;
      assert Groups(ops, inserts, child.operationId, Get(children, child.operationId));
      KidsOf(ops, child.operationId, Get(children, child.operationId));
      var descendants := SortByKey(Get(children, child.operationId));
      if child.operationId in visited {
        NoRevisit(ops, ordered, stack, Ids(descendants));
        return Err(CyclicGraph);
      }
      StackStep(ops, ordered, stack, descendants);
      stack := stack[..|stack|-1];
      visited := visited + {child.operationId};
      ordered := ordered + [child.operationId];
      stack := stack + Reversed(descendants);
    }
    StackEnd(ops, ordered, visited);
    if |visited| != |inserts| {
      return Err(UnreachableCycle);
    }
    return Ok(ordered);
  }
}
