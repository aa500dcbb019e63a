/** The `after` forest of a set of operations and the reading order it defines.
    A character's place is its root path: the sort keys on the way from the top level
    down to it. Characters are read in dictionary order of their root paths. */
module OperationForest {
  import opened TextOperations
  import opened PathOrder

  function Inserts(ops: Operations): set<string> {
    set id | id in ops && ops[id].kind == Insert
  }

  /** The parent in the forest; a missing parent counts as ROOT. */
  function Parent(ops: Operations, id: string): string
    requires id in ops
  {
    if ops[id].after in Inserts(ops) || ops[id].after == ROOT then ops[id].after else ROOT
  }

  /** p lists the sort keys from a top-level character down to its last element. */
  ghost predicate IsRootPath(ops: Operations, p: seq<SortKey>) {
    && p != []
    && p[|p|-1].id in Inserts(ops) && p[|p|-1] == KeyOf(ops[p[|p|-1].id])
    && (if |p| == 1 then Parent(ops, p[0].id) == ROOT
        else Parent(ops, p[|p|-1].id) == p[|p|-2].id && IsRootPath(ops, p[..|p|-1]))
  }

  ghost predicate IsRootPathTo(ops: Operations, p: seq<SortKey>, id: string) {
    IsRootPath(ops, p) && p[|p|-1].id == id
  }

  /** The chain of parents of id ends at ROOT (or at a missing parent). */
  ghost predicate Grounded(ops: Operations, id: string) {
    exists p :: IsRootPathTo(ops, p, id)
  }

  /** Every chain of parents ends, and no insert carries the reserved name. */
  ghost predicate Acyclic(ops: Operations) {
    && ROOT !in Inserts(ops)
    && forall id {:trigger Grounded(ops, id)} {:trigger Path(ops, id)} :: id in Inserts(ops) ==> Grounded(ops, id)
  }

  ghost function Path(ops: Operations, id: string): (p: seq<SortKey>)
    ensures Grounded(ops, id) ==> IsRootPathTo(ops, p, id)
  {
    if Grounded(ops, id) then var p :| IsRootPathTo(ops, p, id); p else []
  }

  ghost function Paths(ops: Operations): PathOf {
    id => Path(ops, id)
  }

  /** x is read before y. */
  ghost predicate Before(ops: Operations, x: string, y: string) {
    Precedes(Paths(ops), x, y)
  }

  /** Every prefix of a root path is one. */
  lemma {:induction false} RootPathPrefix(ops: Operations, p: seq<SortKey>, n: nat)
    requires IsRootPath(ops, p) && 0 < n <= |p|
    ensures IsRootPath(ops, p[..n])
    ensures p[n-1].id in Inserts(ops)
    ensures Parent(ops, p[n-1].id) == if n == 1 then ROOT else p[n-2].id
    decreases |p|
  {
    if n == |p| {
      assert p[..n] == p;
    } else {
      RootPathPrefix(ops, p[..|p|-1], n);
      assert p[..|p|-1][..n] == p[..n];
    }
  }

  lemma {:induction false} RootPathUnique(ops: Operations, p: seq<SortKey>, q: seq<SortKey>)
    requires ROOT !in Inserts(ops)
    requires IsRootPath(ops, p) && IsRootPath(ops, q) && p[|p|-1].id == q[|q|-1].id
    ensures p == q
    decreases |p|
  {
    if |q| > 1 { RootPathPrefix(ops, q, |q| - 1); }
    if |p| > 1 {
      RootPathPrefix(ops, p, |p| - 1);
      RootPathUnique(ops, p[..|p|-1], q[..|q|-1]);
    }
    assert p == p[..|p|-1] + [p[|p|-1]] && q == q[..|q|-1] + [q[|q|-1]];
  }

  lemma PathIs(ops: Operations, p: seq<SortKey>, id: string)
    requires ROOT !in Inserts(ops) && IsRootPathTo(ops, p, id)
    ensures Grounded(ops, id) && Path(ops, id) == p
  {
    RootPathUnique(ops, p, Path(ops, id));
  }

  lemma PathOfTop(ops: Operations, id: string)
    requires WellKeyed(ops) && ROOT !in Inserts(ops) && id in Inserts(ops) && Parent(ops, id) == ROOT
    ensures Grounded(ops, id) && Path(ops, id) == [KeyOf(ops[id])]
  {
    PathIs(ops, [KeyOf(ops[id])], id);
  }

  lemma PathOfChild(ops: Operations, id: string)
    requires WellKeyed(ops) && ROOT !in Inserts(ops) && id in Inserts(ops)
    requires Parent(ops, id) != ROOT && Grounded(ops, Parent(ops, id))
    ensures Grounded(ops, id) && Path(ops, id) == Path(ops, Parent(ops, id)) + [KeyOf(ops[id])]
  {
    var p := Path(ops, Parent(ops, id));
    var q := p + [KeyOf(ops[id])];
    assert q[..|q|-1] == p;
    PathIs(ops, q, id);
  }

  /** Every prefix of a root path is the root path of its last element. */
  lemma PathPrefix(ops: Operations, id: string, n: nat)
    requires ROOT !in Inserts(ops) && Grounded(ops, id) && 0 < n <= |Path(ops, id)|
    ensures Grounded(ops, Path(ops, id)[n-1].id)
    ensures Path(ops, Path(ops, id)[n-1].id) == Path(ops, id)[..n]
  {
    RootPathPrefix(ops, Path(ops, id), n);
    PathIs(ops, Path(ops, id)[..n], Path(ops, id)[n-1].id);
  }

  lemma PathsInjective(ops: Operations, s: set<string>)
    requires forall id <- s :: Grounded(ops, id)
    ensures Injective(Paths(ops), s)
  {
    forall x, y | x in s && y in s && Paths(ops)(x) == Paths(ops)(y) ensures x == y {
      assert IsRootPathTo(ops, Path(ops, x), x) && IsRootPathTo(ops, Path(ops, y), y);
    }
  }

  // ----- The reading order -----

  /** o lists every insert once, in reading order. */
  ghost predicate IsOrder(ops: Operations, o: seq<string>) {
    Sorted(Paths(ops), o) && Lists(o, Inserts(ops))
  }

  lemma OrderExists(ops: Operations)
    requires Acyclic(ops)
    ensures exists o :: IsOrder(ops, o)
  {
    PathsInjective(ops, Inserts(ops));
    var o := SortExists(Paths(ops), Inserts(ops));
    assert IsOrder(ops, o);
  }

  /** The inserts in reading order. */
  ghost function Order(ops: Operations): (o: seq<string>)
    requires Acyclic(ops)
    ensures IsOrder(ops, o)
  {
    OrderExists(ops);
    var o :| IsOrder(ops, o);
    o
  }

  lemma OrderIs(ops: Operations, o: seq<string>)
    requires Acyclic(ops) && IsOrder(ops, o)
    ensures Order(ops) == o
  {
    SortedUnique(Paths(ops), o, Order(ops));
  }
}
