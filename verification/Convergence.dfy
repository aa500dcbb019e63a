/** Merging operations: which merges succeed, why replicas converge, and why merging
    never reorders the characters a replica already shows. */
module Convergence {
  import opened Sequences
  import opened TextOperations
  import opened PathOrder
  import opened OperationForest

  datatype Merged = Merged(ops: Operations, outcome: Result<()>)

  /** Adds operations one by one; stops at the first conflict or past the safety limit. */
  function Merge(m: Operations, xs: seq<TextOperation>): Merged
    decreases |xs|
  {
    if xs == [] then Merged(m, Ok(()))
    else
      var x := xs[0];
      if x.operationId in m && m[x.operationId] != x then Merged(m, Err(ConflictingIdentifier))
      else
        var m' := m[x.operationId := x];
        if |m'| > MAX_OPERATIONS then Merged(m', Err(SafetyLimit)) else Merge(m', xs[1..])
  }

  /** u holds exactly the operations of m and of xs. */
  ghost predicate IsUnion(m: Operations, xs: seq<TextOperation>, u: Operations) {
    && (forall id :: id in u <==> id in m || exists x <- xs :: x.operationId == id)
    && (forall id <- m :: id in u && u[id] == m[id])
    && (forall x <- xs :: x.operationId in u && u[x.operationId] == x)
  }

  lemma UnionUnique(m: Operations, xs: seq<TextOperation>, u: Operations, v: Operations)
    requires IsUnion(m, xs, u) && IsUnion(m, xs, v)
    ensures u == v
  {
    forall id | id in u ensures id in v && u[id] == v[id] {
    }
    assert u.Keys == v.Keys;
  }

  lemma UnionStep(m: Operations, xs: seq<TextOperation>, u: Operations)
    requires xs != [] && (xs[0].operationId in m ==> m[xs[0].operationId] == xs[0])
    ensures IsUnion(m, xs, u) <==> IsUnion(m[xs[0].operationId := xs[0]], xs[1..], u)
  {
    var m' := m[xs[0].operationId := xs[0]];
    assert forall x :: x in xs <==> x == xs[0] || x in xs[1..];
    if IsUnion(m, xs, u) {
      forall id ensures id in u <==> id in m' || exists x <- xs[1..] :: x.operationId == id {
      }
      assert IsUnion(m', xs[1..], u);
    }
    if IsUnion(m', xs[1..], u) {
      forall id ensures id in u <==> id in m || exists x <- xs :: x.operationId == id {
        if id == xs[0].operationId { assert xs[0] in xs && id in m'; }
      }
      assert xs[0].operationId in m';
    }
  }

  /** A merge succeeds exactly when one dictionary can hold everything and stays small. */
  lemma {:induction false} MergeExact(m: Operations, xs: seq<TextOperation>)
    requires |m| <= MAX_OPERATIONS
    ensures Merge(m, xs).outcome.Ok? <==> exists u :: IsUnion(m, xs, u) && |u| <= MAX_OPERATIONS
    ensures Merge(m, xs).outcome.Ok? ==> IsUnion(m, xs, Merge(m, xs).ops) && |Merge(m, xs).ops| <= MAX_OPERATIONS
    decreases |xs|
  {
    if xs == [] {
      assert IsUnion(m, xs, m);
    } else {
      var x := xs[0];
      var m' := m[x.operationId := x];
      if x.operationId in m && m[x.operationId] != x {
        forall u ensures !IsUnion(m, xs, u) {
          assert x in xs;
        }
      } else if |m'| > MAX_OPERATIONS {
        forall u | IsUnion(m, xs, u) ensures |u| > MAX_OPERATIONS {
          UnionStep(m, xs, u);
          SubsetSize(m'.Keys, u.Keys);
          assert |m'.Keys| == |m'| && |u.Keys| == |u|;
        }
      } else {
        MergeExact(m', xs[1..]);
        forall u ensures IsUnion(m, xs, u) <==> IsUnion(m', xs[1..], u) {
          UnionStep(m, xs, u);
        }
      }
    }
  }

  lemma UnionOfSame(m: Operations, xs: seq<TextOperation>, ys: seq<TextOperation>, u: Operations)
    requires forall x :: x in xs <==> x in ys
    ensures IsUnion(m, xs, u) <==> IsUnion(m, ys, u)
  {
  }

  // ----- Batches -----

  function MergeAll(m: Operations, batches: seq<seq<TextOperation>>): Merged
    decreases |batches|
  {
    if batches == [] then Merged(m, Ok(()))
    else
      var first := Merge(m, batches[0]);
      if first.outcome.Err? then first else MergeAll(first.ops, batches[1..])
  }

  function Flatten(batches: seq<seq<TextOperation>>): seq<TextOperation> {
    if batches == [] then [] else batches[0] + Flatten(batches[1..])
  }

  lemma {:induction false} MergeConcat(m: Operations, xs: seq<TextOperation>, ys: seq<TextOperation>)
    ensures Merge(m, xs + ys) ==
            if Merge(m, xs).outcome.Err? then Merge(m, xs) else Merge(Merge(m, xs).ops, ys)
    decreases |xs|
  {
    if xs == [] {
      assert xs + ys == ys;
    } else {
      var m' := m[xs[0].operationId := xs[0]];
      assert (xs + ys)[1..] == xs[1..] + ys;
      MergeConcat(m', xs[1..], ys);
    }
  }

  lemma {:induction false} MergeAllFlat(m: Operations, batches: seq<seq<TextOperation>>)
    ensures MergeAll(m, batches) == Merge(m, Flatten(batches))
    decreases |batches|
  {
    if batches != [] {
      MergeConcat(m, batches[0], Flatten(batches[1..]));
      if Merge(m, batches[0]).outcome.Ok? {
        MergeAllFlat(Merge(m, batches[0]).ops, batches[1..]);
      }
    }
  }

  /** Replicas that received the same operations, in any order, grouping and repetition, agree:
      one merge succeeds exactly when the other does, and then the documents are equal. */
  lemma Converge(m: Operations, left: seq<seq<TextOperation>>, right: seq<seq<TextOperation>>)
    requires |m| <= MAX_OPERATIONS
    requires forall x :: x in Flatten(left) <==> x in Flatten(right)
    ensures MergeAll(m, left).outcome.Ok? <==> MergeAll(m, right).outcome.Ok?
    ensures MergeAll(m, left).outcome.Ok? ==> MergeAll(m, left).ops == MergeAll(m, right).ops
  {
    MergeAllFlat(m, left);
    MergeAllFlat(m, right);
    MergeExact(m, Flatten(left));
    MergeExact(m, Flatten(right));
    forall u ensures IsUnion(m, Flatten(left), u) <==> IsUnion(m, Flatten(right), u) {
      UnionOfSame(m, Flatten(left), Flatten(right), u);
    }
    if MergeAll(m, left).outcome.Ok? {
      UnionUnique(m, Flatten(left), MergeAll(m, left).ops, MergeAll(m, right).ops);
    }
  }

  // ----- Order stability -----

  /** s without the members of gone, in the same order. */
  function Without(s: seq<string>, gone: set<string>): (r: seq<string>)
    ensures forall x :: x in r <==> x in s && x !in gone
  {
    if s == [] then []
    else if s[0] in gone then Without(s[1..], gone)
    else [s[0]] + Without(s[1..], gone)
  }

  lemma {:induction false} WithoutSorted(path: PathOf, s: seq<string>, gone: set<string>)
    requires Sorted(path, s)
    ensures Sorted(path, Without(s, gone))
  {
    if s != [] {
      WithoutSorted(path, s[1..], gone);
      if s[0] !in gone {
        var rest := Without(s[1..], gone);
        forall j | 0 <= j < |rest| ensures Precedes(path, s[0], rest[j]) {
          assert rest[j] in rest && rest[j] in s[1..];
          var k :| 0 <= k < |s| - 1 && s[1..][k] == rest[j];
          assert s[k+1] == rest[j];
        }
        SortedCons(path, s[0], rest);
      }
    }
  }

  lemma SortedCons(path: PathOf, x: string, rest: seq<string>)
    requires Sorted(path, rest) && forall j :: 0 <= j < |rest| ==> Precedes(path, x, rest[j])
    ensures Sorted(path, [x] + rest)
  {
    var r := [x] + rest;
    forall i, j | 0 <= i < j < |r| ensures Precedes(path, r[i], r[j]) {
      assert r[j] == rest[j-1];
      if i > 0 { assert r[i] == rest[i-1]; }
    }
  }

  ghost predicate Submap(small: Operations, big: Operations) {
    forall id <- small :: id in big && big[id] == small[id]
  }

  lemma InsertsGrow(small: Operations, big: Operations)
    requires Submap(small, big)
    ensures Inserts(small) <= Inserts(big)
  {
  }

  /** big does not supply a parent that small was missing. */
  ghost predicate SameParents(small: Operations, big: Operations) {
    && Submap(small, big)
    && forall id <- Inserts(small) :: Parent(big, id) == Parent(small, id)
  }

  /** Every parent is present. */
  ghost predicate Closed(ops: Operations) {
    forall id <- Inserts(ops) :: ops[id].after == ROOT || ops[id].after in Inserts(ops)
  }

  lemma ClosedKeepsParents(small: Operations, big: Operations)
    requires Submap(small, big) && Closed(small)
    ensures SameParents(small, big)
  {
  }

  lemma {:induction false} RootPathGrows(small: Operations, big: Operations, p: seq<SortKey>)
    requires SameParents(small, big) && IsRootPath(small, p)
    ensures IsRootPath(big, p)
    decreases |p|
  {
    assert p[|p|-1].id in Inserts(small);
    if |p| > 1 { RootPathGrows(small, big, p[..|p|-1]); }
  }

  lemma {:induction false} RootPathShrinks(small: Operations, big: Operations, p: seq<SortKey>)
    requires SameParents(small, big) && IsRootPath(big, p)
    requires ROOT !in Inserts(big) && p[|p|-1].id in Inserts(small)
    ensures IsRootPath(small, p)
    decreases |p|
  {
    assert Parent(small, p[|p|-1].id) == Parent(big, p[|p|-1].id);
    if |p| > 1 {
      RootPathPrefix(big, p, |p| - 1);
      RootPathShrinks(small, big, p[..|p|-1]);
    }
  }

  lemma PathsAgree(small: Operations, big: Operations, id: string)
    requires SameParents(small, big) && Acyclic(big) && id in Inserts(small)
    ensures Grounded(small, id) && Path(small, id) == Path(big, id)
  {
    assert id in Inserts(big);
    RootPathShrinks(small, big, Path(big, id));
    InsertsGrow(small, big);
    PathIs(small, Path(big, id), id);
  }

  /** Receiving more operations never reorders the characters a replica already has. */
  lemma OrderStable(small: Operations, big: Operations)
    requires SameParents(small, big) && Acyclic(big)
    ensures Acyclic(small)
    ensures Order(small) == Without(Order(big), Inserts(big) - Inserts(small))
  {
    forall id <- Inserts(small) ensures Grounded(small, id) && Path(small, id) == Path(big, id) {
      PathsAgree(small, big, id);
    }
    InsertsGrow(small, big);
    var o := Without(Order(big), Inserts(big) - Inserts(small));
    WithoutSorted(Paths(big), Order(big), Inserts(big) - Inserts(small));
    assert forall id <- o :: id in Inserts(small);
    forall i, j | 0 <= i < j < |o| ensures Precedes(Paths(small), o[i], o[j]) {
      assert o[i] in o && o[j] in o;
      assert Precedes(Paths(big), o[i], o[j]);
    }
    OrderIs(small, o);
  }

  /** Two replicas that agree on shared identifiers and have every parent merge into a forest again. */
  lemma MergeStaysAcyclic(a: Operations, b: Operations)
    requires Acyclic(a) && Acyclic(b) && Closed(a) && Closed(b)
    requires forall id :: id in a && id in b ==> a[id] == b[id]
    ensures Acyclic(a + b) && Closed(a + b)
    ensures Order(a) == Without(Order(a + b), Inserts(b) - Inserts(a))
    ensures Order(b) == Without(Order(a + b), Inserts(a) - Inserts(b))
  {
    var u := a + b;
    assert Inserts(u) == Inserts(a) + Inserts(b);
    forall id <- Inserts(u) ensures Grounded(u, id) {
      if id in Inserts(a) { GroundedGrows(a, u, id); } else { GroundedGrows(b, u, id); }
    }
    ClosedKeepsParents(a, u);
    ClosedKeepsParents(b, u);
    OrderStable(a, u);
    OrderStable(b, u);
    assert Inserts(u) - Inserts(a) == Inserts(b) - Inserts(a);
    assert Inserts(u) - Inserts(b) == Inserts(a) - Inserts(b);
  }

  lemma GroundedGrows(small: Operations, big: Operations, id: string)
    requires Closed(small) && Submap(small, big) && Grounded(small, id)
    ensures Grounded(big, id)
  {
    ClosedKeepsParents(small, big);
    RootPathGrows(small, big, Path(small, id));
    assert IsRootPathTo(big, Path(small, id), id);
  }

  // ----- Merging whole replicas -----

  lemma {:induction false} MergeIsUnion(m: Operations, xs: seq<TextOperation>)
    ensures Merge(m, xs).outcome.Ok? ==> IsUnion(m, xs, Merge(m, xs).ops)
    decreases |xs|
  {
    if xs == [] {
      assert IsUnion(m, xs, m);
    } else if Merge(m, xs).outcome.Ok? {
      var m' := m[xs[0].operationId := xs[0]];
      MergeIsUnion(m', xs[1..]);
      UnionStep(m, xs, Merge(m', xs[1..]).ops);
    }
  }

  /** The two replicas hold the same operation under each shared identifier. */
  ghost predicate Agree(a: Operations, b: Operations) {
    forall id :: id in a && id in b ==> a[id] == b[id]
  }

  ghost predicate ListsAll(xs: seq<TextOperation>, b: Operations) {
    forall x :: x in xs <==> exists id <- b :: b[id] == x
  }

  lemma UnionHolds(m: Operations, xs: seq<TextOperation>, u: Operations, x: TextOperation)
    requires IsUnion(m, xs, u) && x in xs
    ensures x.operationId in m ==> m[x.operationId] == x
  {
  }

  lemma UnionOfReplicas(a: Operations, b: Operations, xs: seq<TextOperation>)
    requires WellKeyed(b) && ListsAll(xs, b)
    ensures (exists u :: IsUnion(a, xs, u)) <==> Agree(a, b)
    ensures Agree(a, b) ==> IsUnion(a, xs, a + b)
  {
    assert forall id <- b :: b[id] in xs && b[id].operationId == id;
    if Agree(a, b) {
      var u := a + b;
      forall id ensures id in u <==> id in a || exists x <- xs :: x.operationId == id {
        if id in b { assert b[id] in xs; }
      }
      assert IsUnion(a, xs, u);
    } else {
      var id :| id in a && id in b && a[id] != b[id];
      assert b[id] in xs && b[id].operationId == id;
      forall u ensures !IsUnion(a, xs, u) {
        if IsUnion(a, xs, u) { UnionHolds(a, xs, u, b[id]); }
      }
    }
  }

  /** Merging one replica's operations into another fails exactly on a conflicting identifier or past
      the limit, and otherwise makes their union. The union of two parent-closed forests is one again,
      and neither replica's characters are reordered. */
  lemma MergeOfReplicas(a: Operations, b: Operations, xs: seq<TextOperation>)
    requires WellKeyed(b) && ListsAll(xs, b) && |a| <= 250000
    ensures Merge(a, xs).outcome.Ok? <==> Agree(a, b) && |a + b| <= 250000
    ensures Merge(a, xs).outcome.Ok? ==> Merge(a, xs).ops == a + b
    ensures Merge(a, xs).outcome.Ok? && Acyclic(a) && Acyclic(b) && Closed(a) && Closed(b) ==>
              && Acyclic(Merge(a, xs).ops)
              && Order(a) == Without(Order(Merge(a, xs).ops), Inserts(b) - Inserts(a))
              && Order(b) == Without(Order(Merge(a, xs).ops), Inserts(a) - Inserts(b))
  {
    MergeExact(a, xs);
    UnionOfReplicas(a, b, xs);
    if Agree(a, b) {
      forall u | IsUnion(a, xs, u) ensures u == a + b { UnionUnique(a, xs, u, a + b); }
      if Acyclic(a) && Acyclic(b) && Closed(a) && Closed(b) { MergeStaysAcyclic(a, b); }
    }
  }

  // ----- Partial replicas -----

  /** Any part of a forest is a forest: characters whose parent has not arrived hang under ROOT. */
  lemma PartOfForest(small: Operations, big: Operations)
    requires WellKeyed(big) && Submap(small, big) && Acyclic(big)
    ensures Acyclic(small)
  {
    InsertsGrow(small, big);
    forall id <- Inserts(small) ensures Grounded(small, id) { PartGrounded(small, big, id, |Path(big, id)|); }
  }

  lemma {:induction false} PartGrounded(small: Operations, big: Operations, id: string, n: nat)
    requires WellKeyed(big) && Submap(small, big) && Acyclic(big) && id in Inserts(small) && |Path(big, id)| <= n
    ensures Grounded(small, id)
    decreases n
  {
    InsertsGrow(small, big);
    if Parent(small, id) == ROOT {
      PathOfTop(small, id);
    } else {
      var up := Parent(small, id);
      assert up in Inserts(small) && Parent(big, id) == up;
      PathOfChild(big, id);
      PartGrounded(small, big, up, n - 1);
      PathOfChild(small, id);
    }
  }
}
