/** The reading order is the recursive pre-order of the forest with sorted siblings. */
module PreOrder {
  import opened Sequences
  import opened TextOperations
  import opened PathOrder
  import opened OperationForest
  import opened OrderedWalk
  import opened Traversal

  lemma KidsExist(ops: Operations, parent: string)
    requires WellKeyed(ops)
    ensures exists kids :: AreKids(ops, parent, kids)
  {
    var path: PathOf := id => if id in ops then [KeyOf(ops[id])] else [];
    var s := set id | id in Inserts(ops) && Parent(ops, id) == parent;
    var kids := SortExists(path, s);
    AscendingPaths(ops, path, kids);
    assert forall id :: id in kids <==> id in s;
    assert AreKids(ops, parent, kids);
  }

  lemma AscendingPaths(ops: Operations, path: PathOf, kids: seq<string>)
    requires Sorted(path, kids) && forall id <- kids :: id in ops && path(id) == [KeyOf(ops[id])]
    ensures Ascending(ops, kids)
  {
    forall i, j | 0 <= i < j < |kids|
      ensures kids[i] in ops && kids[j] in ops && KeyLess(KeyOf(ops[kids[i]]), KeyOf(ops[kids[j]]))
    {
      assert kids[i] in kids && kids[j] in kids;
      assert Precedes(path, kids[i], kids[j]);
      SingletonOrder(path(kids[i]), path(kids[j]));
    }
  }

  lemma SingletonOrder(a: seq<SortKey>, b: seq<SortKey>)
    requires |a| == |b| == 1
    ensures LexLess(a, b) <==> KeyLess(a[0], b[0])
  {
    assert !LexLess(a[1..], b[1..]);
  }

  /** The children of parent, ascending by sort key. */
  ghost function Kids(ops: Operations, parent: string): (kids: seq<string>)
    ensures WellKeyed(ops) ==> AreKids(ops, parent, kids)
  {
    if WellKeyed(ops) then
      KidsExist(ops, parent);
      var kids :| AreKids(ops, parent, kids);
      kids
    else []
  }

  ghost function After(ops: Operations, id: string): set<string> {
    set y | y in Inserts(ops) && Before(ops, id, y)
  }

  lemma AfterShrinks(ops: Operations, x: string, y: string)
    requires y in Inserts(ops) && Before(ops, x, y)
    ensures |After(ops, y)| < |After(ops, x)|
  {
    forall z | z in After(ops, y) ensures z in After(ops, x) {
      PrecedesTransitive(Paths(ops), x, y, z);
    }
    PrecedesTrichotomy(Paths(ops), y, y);
    assert y in After(ops, x) - After(ops, y);
    SubsetSize(After(ops, y), After(ops, x));
  }

  ghost function KidsIn(ops: Operations): KidsOf {
    id => Kids(ops, id)
  }

  /** How much of the document comes after a character; ROOT comes before everything. */
  ghost function RankIn(ops: Operations): RankOf {
    id => if id == ROOT then |Inserts(ops)| + 1 else |After(ops, id)|
  }

  lemma ForestDescends(ops: Operations)
    requires WellKeyed(ops) && Acyclic(ops)
    ensures Descends(KidsIn(ops), RankIn(ops))
  {
    forall id, kid | kid in KidsIn(ops)(id) ensures RankIn(ops)(kid) < RankIn(ops)(id) {
      assert AreKids(ops, id, Kids(ops, id));
      SubsetSize(After(ops, kid), Inserts(ops));
      if id != ROOT {
        PathOfChild(ops, kid);
        ChildAfterParent(Path(ops, id), KeyOf(ops[kid]));
        AfterShrinks(ops, id, kid);
      }
    }
  }

  /** The recursive walk from the top level. */
  ghost function PreOrderFrom(ops: Operations, roots: seq<string>): seq<string>
    requires WellKeyed(ops) && Acyclic(ops)
  {
    ForestDescends(ops);
    Visit(KidsIn(ops), RankIn(ops), roots)
  }

  lemma VisitNext(ops: Operations, c: string, rest: seq<string>)
    requires WellKeyed(ops) && Acyclic(ops)
    ensures PreOrderFrom(ops, [c] + rest) == [c] + PreOrderFrom(ops, Kids(ops, c) + rest)
  {
    ForestDescends(ops);
    VisitRoot(KidsIn(ops), RankIn(ops), c, rest);
  }

  ghost function Unlisted(ops: Operations, done: seq<string>): nat {
    |set id | id in Inserts(ops) && id !in done|
  }

  lemma ListingShrinks(ops: Operations, done: seq<string>, c: string)
    requires c in Inserts(ops) && c !in done
    ensures Unlisted(ops, done + [c]) < Unlisted(ops, done)
  {
    var a := set id | id in Inserts(ops) && id !in done + [c];
    var b := set id | id in Inserts(ops) && id !in done;
    assert c in b - a;
    SubsetSize(a, b);
  }

  lemma StepFacts(ops: Operations, done: seq<string>, c: string, rest: seq<string>)
    requires WellKeyed(ops) && ROOT !in Inserts(ops) && WalkInv(ops, done, [c] + rest)
    ensures WalkInv(ops, done + [c], Kids(ops, c) + rest)
    ensures Unlisted(ops, done + [c]) < Unlisted(ops, done)
  {
    WalkStep(ops, done, c, rest, Kids(ops, c));
    assert c in done + ([c] + rest) && Placed(ops, c, done);
    ListingShrinks(ops, done, c);
  }

  /** What has been listed, followed by the recursive walk of the stack, is the whole document. */
  lemma {:induction false} WalkCompletes(ops: Operations, done: seq<string>, pending: seq<string>)
    requires WellKeyed(ops) && Acyclic(ops) && WalkInv(ops, done, pending)
    ensures done + PreOrderFrom(ops, pending) == Order(ops)
    decreases Unlisted(ops, done)
  {
    if pending == [] {
      WalkEnd(ops, done);
      OrderIs(ops, done);
      assert done + PreOrderFrom(ops, pending) == done;
    } else {
      assert pending == [pending[0]] + pending[1..];
      StepFacts(ops, done, pending[0], pending[1..]);
      WalkCompletes(ops, done + [pending[0]], Kids(ops, pending[0]) + pending[1..]);
      VisitNext(ops, pending[0], pending[1..]);
      Assoc(done, [pending[0]], PreOrderFrom(ops, Kids(ops, pending[0]) + pending[1..]));
    }
  }

  /** The reading order is the key-sorted pre-order of the forest. */
  lemma OrderIsPreOrder(ops: Operations)
    requires WellKeyed(ops) && Acyclic(ops)
    ensures Order(ops) == PreOrderFrom(ops, Kids(ops, ROOT))
  {
    WalkStart(ops, Kids(ops, ROOT));
    WalkCompletes(ops, [], Kids(ops, ROOT));
    assert [] + PreOrderFrom(ops, Kids(ops, ROOT)) == PreOrderFrom(ops, Kids(ops, ROOT));
  }
}
