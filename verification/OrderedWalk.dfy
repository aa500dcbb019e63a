/** The explicit-stack walk that lists the characters, and why it meets the reading order. */
module OrderedWalk {
  import opened TextOperations
  import opened PathOrder
  import opened OperationForest

  // ----- Sorted children -----

  ghost predicate StrictlyAscending(s: seq<TextOperation>) {
    forall i, j :: 0 <= i < j < |s| ==> KeyLess(KeyOf(s[i]), KeyOf(s[j]))
  }

  function InsertByKey(x: TextOperation, s: seq<TextOperation>): (r: seq<TextOperation>)
    ensures forall y :: y in r <==> y == x || y in s
  {
    if s == [] then [x]
    else if KeyLess(KeyOf(x), KeyOf(s[0])) then [x] + s
    else [s[0]] + InsertByKey(x, s[1..])
  }

  /** Python's sorted(..., key=_sort_key). */
  function SortByKey(s: seq<TextOperation>): (r: seq<TextOperation>)
    ensures forall y :: y in r <==> y in s
  {
    if s == [] then [] else InsertByKey(s[0], SortByKey(s[1..]))
  }

  lemma {:induction false} InsertByKeyAscends(x: TextOperation, s: seq<TextOperation>)
    requires StrictlyAscending(s) && forall y <- s :: KeyOf(y) != KeyOf(x)
    ensures StrictlyAscending(InsertByKey(x, s))
  {
    if s != [] {
      KeyTrichotomy(KeyOf(x), KeyOf(s[0]));
      var r := InsertByKey(x, s);
      if KeyLess(KeyOf(x), KeyOf(s[0])) {
        forall i, j | 0 <= i < j < |r| ensures KeyLess(KeyOf(r[i]), KeyOf(r[j])) {
          if i == 0 && j > 1 { KeyTransitive(KeyOf(x), KeyOf(s[0]), KeyOf(s[j-1])); }
        }
      } else {
        InsertByKeyAscends(x, s[1..]);
        var t := InsertByKey(x, s[1..]);
        forall i, j | 0 <= i < j < |r| ensures KeyLess(KeyOf(r[i]), KeyOf(r[j])) {
          if i == 0 { assert r[j] == t[j-1] && t[j-1] in t; }
        }
      }
    }
  }

  ghost predicate DistinctKeys(s: seq<TextOperation>) {
    forall i, j :: 0 <= i < j < |s| ==> KeyOf(s[i]) != KeyOf(s[j])
  }

  lemma {:induction false} SortByKeyAscends(s: seq<TextOperation>)
    requires DistinctKeys(s)
    ensures StrictlyAscending(SortByKey(s))
  {
    if s != [] {
      SortByKeyAscends(s[1..]);
      forall y | y in SortByKey(s[1..]) ensures KeyOf(y) != KeyOf(s[0]) {
        assert y in s[1..];
      }
      InsertByKeyAscends(s[0], SortByKey(s[1..]));
    }
  }

  // ----- What the walk keeps -----

  ghost predicate Ascending(ops: Operations, kids: seq<string>) {
    forall i, j :: 0 <= i < j < |kids| ==>
      kids[i] in ops && kids[j] in ops && KeyLess(KeyOf(ops[kids[i]]), KeyOf(ops[kids[j]]))
  }

  /** kids are the children of parent, ascending by sort key. */
  ghost predicate AreKids(ops: Operations, parent: string, kids: seq<string>) {
    && (forall id :: id in kids <==> id in Inserts(ops) && Parent(ops, id) == parent)
    && Ascending(ops, kids)
  }

  /** All proper ancestors of id are in done. */
  ghost predicate AncestorsIn(ops: Operations, id: string, done: seq<string>) {
    forall n :: 0 <= n < |Path(ops, id)| - 1 ==> Path(ops, id)[n].id in done
  }

  ghost predicate Placed(ops: Operations, id: string, done: seq<string>) {
    id in Inserts(ops) && Grounded(ops, id) && AncestorsIn(ops, id, done)
  }

  ghost predicate AllPlaced(ops: Operations, line: seq<string>, done: seq<string>) {
    forall id <- line :: Placed(ops, id, done)
  }

  /** Every character whose parent has been listed is in the line. */
  ghost predicate Covered(ops: Operations, line: seq<string>, done: seq<string>) {
    forall id <- Inserts(ops) :: Parent(ops, id) == ROOT || Parent(ops, id) in done ==> id in line
  }

  /** Walk state: done has been listed; pending is the stack, top first. */
  ghost predicate WalkInv(ops: Operations, done: seq<string>, pending: seq<string>) {
    && Sorted(Paths(ops), done + pending)
    && AllPlaced(ops, done + pending, done)
    && Covered(ops, done + pending, done)
  }

  lemma KidsSorted(ops: Operations, parent: string, kids: seq<string>, prefix: seq<SortKey>)
    requires AreKids(ops, parent, kids)
    requires forall id <- kids :: Path(ops, id) == prefix + [KeyOf(ops[id])]
    ensures Sorted(Paths(ops), kids)
  {
    forall i, j | 0 <= i < j < |kids| ensures Precedes(Paths(ops), kids[i], kids[j]) {
      assert kids[i] in kids && kids[j] in kids;
      SiblingOrder(prefix, KeyOf(ops[kids[i]]), KeyOf(ops[kids[j]]));
    }
  }

  lemma {:induction false} SiblingOrder(p: seq<SortKey>, a: SortKey, b: SortKey)
    requires KeyLess(a, b)
    ensures LexLess(p + [a], p + [b])
  {
    if p != [] {
      assert (p + [a])[1..] == p[1..] + [a] && (p + [b])[1..] == p[1..] + [b];
      SiblingOrder(p[1..], a, b);
    }
  }

  lemma {:induction false} ChildAfterParent(p: seq<SortKey>, a: SortKey)
    ensures LexLess(p, p + [a])
  {
    if p != [] {
      assert (p + [a])[1..] == p[1..] + [a];
      ChildAfterParent(p[1..], a);
    }
  }

  lemma WalkStart(ops: Operations, kids: seq<string>)
    requires WellKeyed(ops) && ROOT !in Inserts(ops) && AreKids(ops, ROOT, kids)
    ensures WalkInv(ops, [], kids)
  {
    forall id <- kids ensures Grounded(ops, id) && Path(ops, id) == [] + [KeyOf(ops[id])] {
      PathOfTop(ops, id);
    }
    KidsSorted(ops, ROOT, kids, []);
    assert [] + kids == kids;
  }

  lemma KidPaths(ops: Operations, c: string, kids: seq<string>)
    requires WellKeyed(ops) && ROOT !in Inserts(ops) && AreKids(ops, c, kids) && c in Inserts(ops) && Grounded(ops, c)
    ensures forall id <- kids :: Grounded(ops, id) && Path(ops, id) == Path(ops, c) + [KeyOf(ops[id])]
  {
    forall id <- kids ensures Grounded(ops, id) && Path(ops, id) == Path(ops, c) + [KeyOf(ops[id])] {
      PathOfChild(ops, id);
    }
  }

  lemma StepSorted(ops: Operations, done: seq<string>, c: string, rest: seq<string>, kids: seq<string>)
    requires Sorted(Paths(ops), kids) && Sorted(Paths(ops), done + ([c] + rest))
    requires forall kid <- kids :: Before(ops, c, kid)
    requires forall s <- rest, kid <- kids :: Before(ops, kid, s)
    ensures Sorted(Paths(ops), (done + [c]) + (kids + rest))
  {
    var line, path := done + ([c] + rest), Paths(ops);
    assert line[|done|] == c;
    forall i, m | 0 <= i < |done + [c]| && 0 <= m < |kids| ensures Precedes(path, (done + [c])[i], kids[m]) {
      assert kids[m] in kids;
      if i < |done| {
        assert line[i] == done[i];
        PrecedesTransitive(path, done[i], c, kids[m]);
      }
    }
    forall i, m | 0 <= i < |rest| && 0 <= m < |kids| ensures Precedes(path, kids[m], rest[i]) {
      assert kids[m] in kids && rest[i] in rest;
    }
    assert (done + [c]) + rest == line;
    SpliceSorted(path, done + [c], kids, rest);
    assert (done + [c]) + kids + rest == (done + [c]) + (kids + rest);
  }

  lemma StepAncestors(ops: Operations, done: seq<string>, c: string, kid: string)
    requires Grounded(ops, c) && AncestorsIn(ops, c, done) && kid in ops
    requires Path(ops, kid) == Path(ops, c) + [KeyOf(ops[kid])]
    ensures AncestorsIn(ops, kid, done + [c])
  {
    forall n | 0 <= n < |Path(ops, kid)| - 1 ensures Path(ops, kid)[n].id in done + [c] {
      assert Path(ops, kid)[n] == Path(ops, c)[n];
      assert IsRootPathTo(ops, Path(ops, c), c);
    }
  }

  lemma StepMembers(ops: Operations, done: seq<string>, c: string, rest: seq<string>, kids: seq<string>)
    requires AllPlaced(ops, done + ([c] + rest), done) && AllPlaced(ops, kids, done + [c])
    ensures AllPlaced(ops, (done + [c]) + (kids + rest), done + [c])
  {
    forall id <- (done + [c]) + (kids + rest) ensures Placed(ops, id, done + [c]) {
      if id !in kids { assert id in done + ([c] + rest); assert Placed(ops, id, done); }
    }
  }

  lemma StepCoverage(ops: Operations, done: seq<string>, c: string, rest: seq<string>, kids: seq<string>)
    requires AreKids(ops, c, kids) && Covered(ops, done + ([c] + rest), done)
    ensures Covered(ops, (done + [c]) + (kids + rest), done + [c])
  {
    forall id <- Inserts(ops) | Parent(ops, id) == ROOT || Parent(ops, id) in done + [c]
      ensures id in (done + [c]) + (kids + rest)
    {
      if Parent(ops, id) != c { assert id in done + ([c] + rest); }
    }
  }

  lemma KidsPlaced(ops: Operations, done: seq<string>, c: string, kids: seq<string>)
    requires WellKeyed(ops) && ROOT !in Inserts(ops) && AreKids(ops, c, kids) && Placed(ops, c, done)
    ensures Sorted(Paths(ops), kids) && AllPlaced(ops, kids, done + [c])
    ensures forall kid <- kids :: Before(ops, c, kid) && Path(ops, kid) == Path(ops, c) + [KeyOf(ops[kid])]
  {
    KidPaths(ops, c, kids);
    KidsSorted(ops, c, kids, Path(ops, c));
    forall kid <- kids ensures Before(ops, c, kid) && Placed(ops, kid, done + [c]) {
      ChildAfterParent(Path(ops, c), KeyOf(ops[kid]));
      StepAncestors(ops, done, c, kid);
    }
  }

  lemma RestAfterKid(ops: Operations, done: seq<string>, c: string, rest: seq<string>, s: string, kid: string)
    requires c !in done && WalkInv(ops, done, [c] + rest) && s in rest
    requires kid in ops && Path(ops, kid) == Path(ops, c) + [KeyOf(ops[kid])]
    ensures Before(ops, kid, s)
  {
    var line := done + ([c] + rest);
    var i :| 0 <= i < |rest| && rest[i] == s;
    assert line[|done|] == c && line[|done| + 1 + i] == s;
    assert c in line && s in line;
    assert Placed(ops, s, done) && Placed(ops, c, done);
    KidsBeforeRest(ops, done, c, s, kid);
  }

  /** Popping c and pushing its children keeps everything listed and waiting in reading order. */
  lemma WalkStep(ops: Operations, done: seq<string>, c: string, rest: seq<string>, kids: seq<string>)
    requires WellKeyed(ops) && ROOT !in Inserts(ops) && AreKids(ops, c, kids)
    requires WalkInv(ops, done, [c] + rest)
    ensures c !in done && WalkInv(ops, done + [c], kids + rest)
  {
    var line := done + ([c] + rest);
    assert c !in done by {
      SortedDistinct(Paths(ops), line);
      assert line[|done|] == c && forall i :: 0 <= i < |done| ==> line[i] == done[i];
    }
    assert c in line && Placed(ops, c, done);
    KidsPlaced(ops, done, c, kids);
    forall s <- rest, kid <- kids ensures Before(ops, kid, s) {
      RestAfterKid(ops, done, c, rest, s, kid);
    }
    StepSorted(ops, done, c, rest, kids);
    StepMembers(ops, done, c, rest, kids);
    StepCoverage(ops, done, c, rest, kids);
  }

  lemma AncestorOfExtension(ops: Operations, c: string, s: string)
    requires Grounded(ops, c)
    ensures Path(ops, c) < Path(ops, s) ==> exists n :: 0 <= n < |Path(ops, s)| - 1 && Path(ops, s)[n].id == c
  {
    var p, q := Path(ops, c), Path(ops, s);
    assert p != [] && p[|p|-1].id == c;
    if p < q { assert q[|p|-1].id == c; }
  }

  lemma KidsBeforeRest(ops: Operations, done: seq<string>, c: string, s: string, kid: string)
    requires Grounded(ops, c) && Grounded(ops, s) && Before(ops, c, s) && kid in ops
    requires c !in done && AncestorsIn(ops, s, done)
    requires Path(ops, kid) == Path(ops, c) + [KeyOf(ops[kid])]
    ensures Before(ops, kid, s)
  {
    var p, q := Path(ops, c), Path(ops, s);
    PrecedesTrichotomy(Paths(ops), c, s);
    AncestorOfExtension(ops, c, s);
    LexExtendLeft(p, q, [KeyOf(ops[kid])]);
  }

  lemma {:induction false} AllListed(ops: Operations, done: seq<string>, id: string, n: nat)
    requires ROOT !in Inserts(ops) && WalkInv(ops, done, []) && Grounded(ops, id) && n < |Path(ops, id)|
    ensures Path(ops, id)[n].id in done
  {
    assert done + [] == done;
    var p := Path(ops, id);
    RootPathPrefix(ops, p, n + 1);
    if n > 0 { AllListed(ops, done, id, n - 1); }
  }

  /** When the stack is empty the grounded characters are listed in reading order. */
  lemma WalkEnd(ops: Operations, done: seq<string>)
    requires ROOT !in Inserts(ops) && WalkInv(ops, done, [])
    ensures Sorted(Paths(ops), done)
    ensures forall id :: id in done <==> id in Inserts(ops) && Grounded(ops, id)
  {
    assert done + [] == done;
    forall id | id in Inserts(ops) && Grounded(ops, id) ensures id in done {
      AllListed(ops, done, id, |Path(ops, id)| - 1);
    }
  }

  // ----- An insert that carries the reserved name -----

  /** Once the insert named ROOT is listed, every top-level character is due twice. */
  ghost predicate RootInv(ops: Operations, done: seq<string>, pending: seq<string>) {
    && (forall id <- Inserts(ops) :: Parent(ops, id) == ROOT ==> id in done + pending)
    && (ROOT in done ==> forall id <- Inserts(ops) :: Parent(ops, id) == ROOT ==> multiset(done + pending)[id] >= 2)
    && (done == [] ==> forall id <- pending :: id in Inserts(ops) && Parent(ops, id) == ROOT)
    && (done != [] ==> done[0] in Inserts(ops) && Parent(ops, done[0]) == ROOT)
  }

  lemma LineCounts(done: seq<string>, c: string, rest: seq<string>, kids: seq<string>)
    ensures multiset((done + [c]) + (kids + rest)) == multiset(done + ([c] + rest)) + multiset(kids)
    ensures forall id :: id in done + ([c] + rest) || id in kids ==> id in (done + [c]) + (kids + rest)
  {
    assert (done + [c]) + (kids + rest) == done + [c] + kids + rest;
    assert done + ([c] + rest) == done + [c] + rest;
  }

  lemma RootStep(ops: Operations, done: seq<string>, c: string, rest: seq<string>, kids: seq<string>)
    requires RootInv(ops, done, [c] + rest) && AreKids(ops, c, kids)
    ensures RootInv(ops, done + [c], kids + rest)
  {
    var line, line' := done + ([c] + rest), (done + [c]) + (kids + rest);
    LineCounts(done, c, rest, kids);
    if ROOT in done + [c] {
      forall id <- Inserts(ops) | Parent(ops, id) == ROOT ensures multiset(line')[id] >= 2 {
        assert id in line && id in multiset(line);
        if c == ROOT { assert id in kids && id in multiset(kids); }
      }
    }
  }

  /** A walk that lists no character twice never lists an insert named ROOT. */
  lemma RootNeverListed(ops: Operations, done: seq<string>)
    requires RootInv(ops, done, [])
    requires forall i, j :: 0 <= i < j < |done| ==> done[i] != done[j]
    ensures ROOT !in done
  {
    if done != [] {
      assert done + [] == done;
      var y := done[0];
      assert done == [y] + done[1..];
      assert y !in done[1..];
      assert multiset(done) == multiset{y} + multiset(done[1..]);
    }
  }
}
