/** Where inserted characters land and what deletions remove. */
module Editing {
  import opened Sequences
  import opened Decimal
  import opened TextOperations
  import opened PathOrder
  import opened OperationForest
  import opened Convergence

  /** The clock reading an operation is stamped with. */
  type Clock = nat -> real

  // ----- The visible text -----

  function Deleted(ops: Operations): set<string> {
    set id | id in ops && ops[id].kind == Delete :: ops[id].target
  }

  ghost function Visible(ops: Operations): seq<string>
    requires Acyclic(ops)
  {
    Without(Order(ops), Deleted(ops))
  }

  function Render(ops: Operations, ids: seq<string>): string
    requires forall id <- ids :: id in ops
  {
    if ids == [] then "" else ops[ids[0]].value + Render(ops, ids[1..])
  }

  ghost function Text(ops: Operations): string
    requires Acyclic(ops)
  {
    Render(ops, Visible(ops))
  }

  lemma {:induction false} RenderConcat(ops: Operations, a: seq<string>, b: seq<string>)
    requires forall id <- a + b :: id in ops
    ensures forall id <- a :: id in ops
    ensures forall id <- b :: id in ops
    ensures Render(ops, a + b) == Render(ops, a) + Render(ops, b)
  {
    assert forall id <- a :: id in a + b;
    assert forall id <- b :: id in a + b;
    if a == [] {
      assert a + b == b;
    } else {
      assert (a + b)[1..] == a[1..] + b;
      RenderConcat(ops, a[1..], b);
    }
  }

  lemma {:induction false} RenderSame(small: Operations, big: Operations, ids: seq<string>)
    requires Submap(small, big) && forall id <- ids :: id in small
    ensures Render(big, ids) == Render(small, ids)
  {
    if ids != [] { RenderSame(small, big, ids[1..]); }
  }

  // ----- New operations -----

  function NewInsert(actor: string, counter: nat, clock: Clock, after: string, ch: char): TextOperation {
    TextOperation(MakeId(actor, counter), actor, counter, Insert, after, [ch], "", clock(counter))
  }

  function NewDelete(actor: string, counter: nat, clock: Clock, target: string): TextOperation {
    TextOperation(MakeId(actor, counter), actor, counter, Delete, ROOT, "", target, clock(counter))
  }

  /** The document after typing w behind `after`: each character hangs under the one before it. */
  function AddChars(ops: Operations, actor: string, counter: nat, clock: Clock, after: string, w: string): Operations
    decreases |w|
  {
    if w == "" then ops
    else
      var op := NewInsert(actor, counter + 1, clock, after, w[0]);
      AddChars(ops[op.operationId := op], actor, counter + 1, clock, op.operationId, w[1..])
  }

  function CharIds(actor: string, counter: nat, n: nat): (ids: seq<string>)
    ensures |ids| == n
  {
    seq(n, i requires 0 <= i < n => MakeId(actor, counter + 1 + i))
  }

  /** The delete operations for the given characters. */
  function DeleteOps(actor: string, counter: nat, clock: Clock, targets: seq<string>): (r: seq<TextOperation>)
    ensures |r| == |targets|
    ensures forall i :: 0 <= i < |targets| ==> r[i] == NewDelete(actor, counter + 1 + i, clock, targets[i])
    decreases |targets|
  {
    if targets == [] then []
    else [NewDelete(actor, counter + 1, clock, targets[0])] + DeleteOps(actor, counter + 1, clock, targets[1..])
  }

  /** No operation carries id or refers to it. */
  ghost predicate Unmentioned(ops: Operations, id: string) {
    id !in ops && forall k <- ops :: ops[k].after != id && ops[k].target != id
  }

  /** None of the identifiers this actor will make next is in use. */
  ghost predicate Fresh(ops: Operations, actor: string, counter: nat) {
    SafeActor(actor) && forall c :: c > counter ==> Unmentioned(ops, MakeId(actor, c))
  }

  lemma NotRoot(actor: string, counter: nat)
    ensures MakeId(actor, counter) != ROOT
  {
    ColonInId(actor, counter);
  }

  lemma FreshAfterInsert(ops: Operations, actor: string, counter: nat, clock: Clock, after: string, ch: char)
    requires Fresh(ops, actor, counter) && (after == ROOT || after in ops)
    ensures var op := NewInsert(actor, counter + 1, clock, after, ch);
            Fresh(ops[op.operationId := op], actor, counter + 1)
  {
    var op := NewInsert(actor, counter + 1, clock, after, ch);
    forall c | c > counter + 1 ensures Unmentioned(ops[op.operationId := op], MakeId(actor, c)) {
      assert Unmentioned(ops, MakeId(actor, c));
      if MakeId(actor, c) == op.operationId { IdInjective(actor, c, actor, counter + 1); }
      NotRoot(actor, c);
      ColonInId(actor, c);
    }
  }

  // ----- Where one new character lands -----

  ghost function PathTo(ops: Operations, anchor: string): seq<SortKey> {
    if anchor == ROOT then [] else Path(ops, anchor)
  }

  /** y lies in the subtree of a child of anchor whose sort key is smaller than key. */
  ghost predicate InSmallerSubtree(ops: Operations, anchor: string, key: SortKey, y: string) {
    exists n :: 0 <= n < |Path(ops, y)| && Path(ops, y)[n].id in Inserts(ops)
             && Parent(ops, Path(ops, y)[n].id) == anchor && KeyLess(Path(ops, y)[n], key)
  }

  ghost predicate IsAnchor(ops: Operations, anchor: string) {
    anchor == ROOT || anchor in Inserts(ops)
  }

  lemma SmallerSubtreeByPath(ops: Operations, anchor: string, key: SortKey, y: string)
    requires Acyclic(ops) && IsAnchor(ops, anchor) && y in Inserts(ops)
    ensures InSmallerSubtree(ops, anchor, key, y) <==>
            PathTo(ops, anchor) < Path(ops, y) && KeyLess(Path(ops, y)[|PathTo(ops, anchor)|], key)
  {
    var p, q := PathTo(ops, anchor), Path(ops, y);
    assert IsRootPathTo(ops, q, y);
    if InSmallerSubtree(ops, anchor, key, y) {
      var n :| 0 <= n < |q| && q[n].id in Inserts(ops) && Parent(ops, q[n].id) == anchor && KeyLess(q[n], key);
      RootPathPrefix(ops, q, n + 1);
      if n > 0 {
        RootPathPrefix(ops, q, n);
        PathPrefix(ops, y, n);
      }
      assert p == q[..n];
    }
    if p < q {
      RootPathPrefix(ops, q, |p| + 1);
      if p != [] { assert IsRootPathTo(ops, p, anchor) && q[|p|-1] == p[|p|-1]; }
      assert q[|p|].id in Inserts(ops) && Parent(ops, q[|p|].id) == anchor;
    }
  }

  /** ops with one more character. */
  ghost predicate IsNewChar(ops: Operations, x: TextOperation) {
    x.kind == Insert && x.operationId != ROOT && IsAnchor(ops, x.after) && Unmentioned(ops, x.operationId)
  }

  function With(ops: Operations, x: TextOperation): Operations {
    ops[x.operationId := x]
  }

  lemma NewCharParents(ops: Operations, x: TextOperation)
    requires WellKeyed(ops) && IsNewChar(ops, x)
    ensures WellKeyed(With(ops, x)) && SameParents(ops, With(ops, x))
    ensures Inserts(With(ops, x)) == Inserts(ops) + {x.operationId}
    ensures Parent(With(ops, x), x.operationId) == x.after
  {
    var ops' := With(ops, x);
    assert Inserts(ops') == Inserts(ops) + {x.operationId};
    forall id <- Inserts(ops) ensures Parent(ops', id) == Parent(ops, id) {
      assert ops[id].after != x.operationId;
    }
  }

  lemma OldPathKept(ops: Operations, x: TextOperation, id: string)
    requires WellKeyed(ops) && Acyclic(ops) && IsNewChar(ops, x) && id in Inserts(ops)
    ensures Grounded(With(ops, x), id) && Path(With(ops, x), id) == Path(ops, id)
  {
    NewCharParents(ops, x);
    RootPathGrows(ops, With(ops, x), Path(ops, id));
    PathIs(With(ops, x), Path(ops, id), id);
  }

  lemma NewCharPath(ops: Operations, x: TextOperation)
    requires WellKeyed(ops) && Acyclic(ops) && IsNewChar(ops, x)
    ensures Acyclic(With(ops, x))
    ensures Path(With(ops, x), x.operationId) == PathTo(ops, x.after) + [KeyOf(x)]
  {
    var ops' := With(ops, x);
    NewCharParents(ops, x);
    if x.after == ROOT {
      PathOfTop(ops', x.operationId);
    } else {
      OldPathKept(ops, x, x.after);
      PathOfChild(ops', x.operationId);
    }
    forall id <- Inserts(ops') ensures Grounded(ops', id) {
      if id != x.operationId { OldPathKept(ops, x, id); }
    }
  }

  /** The characters before a new one: everything up to its anchor, and the subtrees of the
      anchor's children with smaller keys. */
  lemma BeforeNewChar(ops: Operations, x: TextOperation, y: string)
    requires WellKeyed(ops) && Acyclic(ops) && IsNewChar(ops, x) && y in Inserts(ops)
    ensures Before(With(ops, x), y, x.operationId) <==>
            UpTo(ops, y, x.after) || InSmallerSubtree(ops, x.after, KeyOf(x), y)
    ensures InSmallerSubtree(ops, x.after, KeyOf(x), y) ==> !UpTo(ops, y, x.after)
  {
    NewCharPath(ops, x);
    OldPathKept(ops, x, y);
    SmallerSubtreeByPath(ops, x.after, KeyOf(x), y);
    UpToByPath(ops, y, x.after);
    AroundNewKey(PathTo(ops, x.after), Path(ops, y), KeyOf(x));
  }

  /** y is anchor or comes before it. */
  ghost predicate UpTo(ops: Operations, y: string, anchor: string) {
    anchor != ROOT && (y == anchor || Before(ops, y, anchor))
  }

  lemma UpToByPath(ops: Operations, y: string, anchor: string)
    requires Acyclic(ops) && IsAnchor(ops, anchor) && y in Inserts(ops)
    ensures UpTo(ops, y, anchor) <==> Path(ops, y) == PathTo(ops, anchor) || LexLess(Path(ops, y), PathTo(ops, anchor))
  {
    if anchor != ROOT && Path(ops, y) == Path(ops, anchor) {
      assert IsRootPathTo(ops, Path(ops, y), y) && IsRootPathTo(ops, Path(ops, anchor), anchor);
    }
  }

  lemma AroundNewKey(p: seq<SortKey>, q: seq<SortKey>, k: SortKey)
    ensures LexLess(q, p + [k]) <==> q == p || LexLess(q, p) || (p < q && KeyLess(q[|p|], k))
    ensures p < q ==> q != p && !LexLess(q, p)
  {
    LexBetween(p, q, k);
    LexTrichotomy(p, q);
    LexPrefix(p, [k]);
    if LexLess(q, p) { LexTransitive(q, p, p + [k]); }
    if p < q { assert q == p + q[|p|..]; LexPrefix(p, q[|p|..]); }
  }

  lemma {:induction false} LexPrefix(p: seq<SortKey>, tail: seq<SortKey>)
    requires tail != []
    ensures LexLess(p, p + tail)
  {
    if p == [] {
      assert p + tail == tail;
    } else {
      assert (p + tail)[1..] == p[1..] + tail;
      LexPrefix(p[1..], tail);
    }
  }

  /** A new character splits the old order in two and stands between the parts. */
  lemma PlaceNewChar(ops: Operations, x: TextOperation) returns (q: nat)
    requires WellKeyed(ops) && Acyclic(ops) && IsNewChar(ops, x)
    ensures Acyclic(With(ops, x)) && q <= |Order(ops)|
    ensures Order(With(ops, x)) == Order(ops)[..q] + [x.operationId] + Order(ops)[q..]
    ensures forall i :: 0 <= i < |Order(ops)| ==> (i < q <==> Before(With(ops, x), Order(ops)[i], x.operationId))
  {
    var ops', o := With(ops, x), Order(ops);
    NewCharPath(ops, x);
    NewCharParents(ops, x);
    forall i | 0 <= i < |o| ensures o[i] in Inserts(ops) && Path(ops', o[i]) == Path(ops, o[i]) {
      assert o[i] in o;
      OldPathKept(ops, x, o[i]);
    }
    SamePathsSorted(Paths(ops), Paths(ops'), o);
    PathsInjective(ops', Inserts(ops'));
    q := PlaceIn(Paths(ops'), o, x.operationId);
    assert o == o[..q] + o[q..];
    OrderIs(ops', o[..q] + [x.operationId] + o[q..]);
  }

  lemma SamePathsSorted(path: PathOf, path': PathOf, o: seq<string>)
    requires Sorted(path, o) && forall i :: 0 <= i < |o| ==> path'(o[i]) == path(o[i])
    ensures Sorted(path', o)
  {
    forall i, j | 0 <= i < j < |o| ensures Precedes(path', o[i], o[j]) {
      assert Precedes(path, o[i], o[j]);
    }
  }

  // ----- Where a typed word lands -----

  function NewKey(actor: string, counter: nat): SortKey {
    SortKey(counter, actor, MakeId(actor, counter))
  }

  /** The characters read before a word typed behind `after`. */
  ghost predicate AheadOfWord(ops: Operations, after: string, key: SortKey, y: string) {
    UpTo(ops, y, after) || InSmallerSubtree(ops, after, key, y)
  }

  lemma NoChildrenYet(ops: Operations, x: TextOperation, key: SortKey, y: string)
    requires IsNewChar(ops, x)
    ensures !InSmallerSubtree(With(ops, x), x.operationId, key, y)
  {
  }

  lemma UpToIndex(ops: Operations, i: nat, j: nat)
    requires Acyclic(ops) && i < |Order(ops)| && j < |Order(ops)| && Order(ops)[j] != ROOT
    ensures UpTo(ops, Order(ops)[i], Order(ops)[j]) <==> i <= j
  {
    PrecedesTrichotomy(Paths(ops), Order(ops)[i], Order(ops)[j]);
  }

  ghost predicate WordPlaced(ops: Operations, ops': Operations, actor: string, counter: nat, w: string, q: nat)
    requires Acyclic(ops) && Acyclic(ops')
  {
    && q <= |Order(ops)|
    && Order(ops') == Order(ops)[..q] + CharIds(actor, counter, |w|) + Order(ops)[q..]
  }

  /** What typing adds, apart from the order. */
  ghost predicate WordAdded(ops: Operations, ops': Operations, actor: string, counter: nat, w: string) {
    && WellKeyed(ops') && Submap(ops, ops') && Fresh(ops', actor, counter + |w|)
    && Deleted(ops') == Deleted(ops)
    && (forall c :: counter < c <= counter + |w| ==>
       MakeId(actor, c) in ops' && ops'[MakeId(actor, c)].value == [w[c - counter - 1]])
  }

  lemma OneCharAdded(ops: Operations, actor: string, counter: nat, clock: Clock, after: string, ch: char)
    requires WellKeyed(ops) && Fresh(ops, actor, counter) && IsAnchor(ops, after)
    ensures var x := NewInsert(actor, counter + 1, clock, after, ch);
            IsNewChar(ops, x) && WordAdded(ops, With(ops, x), actor, counter, [ch])
  {
    var x := NewInsert(actor, counter + 1, clock, after, ch);
    assert Unmentioned(ops, x.operationId);
    NotRoot(actor, counter + 1);
    FreshAfterInsert(ops, actor, counter, clock, after, ch);
    var ops' := With(ops, x);
    forall t ensures t in Deleted(ops') <==> t in Deleted(ops) {
      if t in Deleted(ops') {
        var id :| id in ops' && ops'[id].kind == Delete && ops'[id].target == t;
        assert id in ops && ops[id].kind == Delete;
      }
      if t in Deleted(ops) {
        var id :| id in ops && ops[id].kind == Delete && ops[id].target == t;
        assert id in ops' && ops'[id].kind == Delete;
      }
    }
  }

  lemma WordAddedStep(ops: Operations, mid: Operations, ops': Operations, actor: string, counter: nat, w: string)
    requires w != "" && WordAdded(ops, mid, actor, counter, w[..1]) && WordAdded(mid, ops', actor, counter + 1, w[1..])
    ensures WordAdded(ops, ops', actor, counter, w)
  {
    forall c | counter < c <= counter + |w|
      ensures MakeId(actor, c) in ops' && ops'[MakeId(actor, c)].value == [w[c - counter - 1]]
    {
      if c == counter + 1 { assert MakeId(actor, c) in mid; }
    }
  }

  /** q separates the characters ahead of a typed word from the others. */
  ghost predicate Separates(ops: Operations, after: string, key: SortKey, q: nat)
    requires Acyclic(ops)
  {
    && q <= |Order(ops)|
    && forall i :: 0 <= i < |Order(ops)| ==> (i < q <==> AheadOfWord(ops, after, key, Order(ops)[i]))
  }

  lemma FirstCharSeparates(ops: Operations, x: TextOperation, q: nat)
    requires WellKeyed(ops) && Acyclic(ops) && IsNewChar(ops, x) && q <= |Order(ops)|
    requires forall i :: 0 <= i < |Order(ops)| ==> (i < q <==> Before(With(ops, x), Order(ops)[i], x.operationId))
    ensures Separates(ops, x.after, KeyOf(x), q)
  {
    var o := Order(ops);
    forall i | 0 <= i < |o| ensures i < q <==> AheadOfWord(ops, x.after, KeyOf(x), o[i]) {
      assert o[i] in o;
      BeforeNewChar(ops, x, o[i]);
    }
  }

  lemma WordPlacedStep(ops: Operations, x: TextOperation, ops': Operations, actor: string, counter: nat, w: string,
      q: nat, q': nat)
    requires Acyclic(ops) && IsNewChar(ops, x) && Acyclic(With(ops, x)) && Acyclic(ops') && q <= |Order(ops)|
    requires |w| > 1 && x.operationId == MakeId(actor, counter + 1)
    requires Order(With(ops, x)) == Order(ops)[..q] + [x.operationId] + Order(ops)[q..]
    requires Separates(With(ops, x), x.operationId, NewKey(actor, counter + 2), q')
    requires WordPlaced(With(ops, x), ops', actor, counter + 1, w[1..], q')
    ensures WordPlaced(ops, ops', actor, counter, w, q)
  {
    NextCharFollows(ops, x, q, q', NewKey(actor, counter + 2));
    JoinWord(Order(ops), q, actor, counter, |w|);
  }

  lemma PlaceLast(ops: Operations, actor: string, counter: nat, clock: Clock, after: string, w: string,
      x: TextOperation, q: nat)
    requires Acyclic(ops) && |w| == 1 && x == NewInsert(actor, counter + 1, clock, after, w[0]) && IsNewChar(ops, x)
    requires Acyclic(With(ops, x)) && WordAdded(ops, With(ops, x), actor, counter, w[..1]) && q <= |Order(ops)|
    requires Order(With(ops, x)) == Order(ops)[..q] + [x.operationId] + Order(ops)[q..]
    ensures AddChars(ops, actor, counter, clock, after, w) == With(ops, x)
    ensures WordAdded(ops, With(ops, x), actor, counter, w) && WordPlaced(ops, With(ops, x), actor, counter, w, q)
  {
    assert w[1..] == "" && w[..1] == w && CharIds(actor, counter, 1) == [x.operationId];
  }

  /** A typed word stays together; it lands behind its anchor and behind the subtrees of the
      anchor's children with smaller keys. */
  lemma {:induction false} PlaceWord(
    ops: Operations, actor: string, counter: nat, clock: Clock, after: string, w: string) returns (q: nat)
    requires WellKeyed(ops) && Acyclic(ops) && Fresh(ops, actor, counter) && IsAnchor(ops, after) && w != ""
    ensures var ops' := AddChars(ops, actor, counter, clock, after, w);
            && WordAdded(ops, ops', actor, counter, w)
            && Acyclic(ops') && WordPlaced(ops, ops', actor, counter, w, q)
    ensures Separates(ops, after, NewKey(actor, counter + 1), q)
    decreases |w|
  {
    var x := NewInsert(actor, counter + 1, clock, after, w[0]);
    var mid := With(ops, x);
    OneCharAdded(ops, actor, counter, clock, after, w[0]);
    q := PlaceNewChar(ops, x);
    FirstCharSeparates(ops, x, q);
    assert w[..1] == [w[0]];
    if |w| > 1 {
      NewCharParents(ops, x);
      var q' := PlaceWord(mid, actor, counter + 1, clock, x.operationId, w[1..]);
      var ops' := AddChars(mid, actor, counter + 1, clock, x.operationId, w[1..]);
      WordAddedStep(ops, mid, ops', actor, counter, w);
      WordPlacedStep(ops, x, ops', actor, counter, w, q, q');
    } else {
      PlaceLast(ops, actor, counter, clock, after, w, x, q);
    }
  }

  lemma NextCharFollows(ops: Operations, x: TextOperation, q: nat, q': nat, key: SortKey)
    requires Acyclic(ops) && IsNewChar(ops, x) && Acyclic(With(ops, x)) && q <= |Order(ops)|
    requires Order(With(ops, x)) == Order(ops)[..q] + [x.operationId] + Order(ops)[q..]
    requires Separates(With(ops, x), x.operationId, key, q')
    ensures q' == q + 1
  {
    var o := Order(With(ops, x));
    assert o[q] == x.operationId;
    NextCharAt(ops, x, key, q, q);
    if q + 1 < |o| { NextCharAt(ops, x, key, q + 1, q); }
  }

  lemma NextCharAt(ops: Operations, x: TextOperation, key: SortKey, i: nat, q: nat)
    requires IsNewChar(ops, x) && Acyclic(With(ops, x))
    requires i < |Order(With(ops, x))| && q < |Order(With(ops, x))| && Order(With(ops, x))[q] == x.operationId
    ensures AheadOfWord(With(ops, x), x.operationId, key, Order(With(ops, x))[i]) <==> i <= q
  {
    NoChildrenYet(ops, x, key, Order(With(ops, x))[i]);
    UpToIndex(With(ops, x), i, q);
  }

  lemma JoinWord(o: seq<string>, q: nat, actor: string, counter: nat, n: nat)
    requires q <= |o| && n > 0
    ensures var o' := o[..q] + [MakeId(actor, counter + 1)] + o[q..];
            o'[..q+1] + CharIds(actor, counter + 1, n - 1) + o'[q+1..] == o[..q] + CharIds(actor, counter, n) + o[q..]
  {
    assert CharIds(actor, counter, n) == [MakeId(actor, counter + 1)] + CharIds(actor, counter + 1, n - 1);
  }

  // ----- The visible effect of typing -----

  lemma {:induction false} WithoutConcat(a: seq<string>, b: seq<string>, gone: set<string>)
    ensures Without(a + b, gone) == Without(a, gone) + Without(b, gone)
  {
    if a == [] {
      assert a + b == b;
    } else {
      assert (a + b)[1..] == a[1..] + b;
      WithoutConcat(a[1..], b, gone);
    }
  }

  lemma {:induction false} WithoutNone(a: seq<string>, gone: set<string>)
    requires forall x <- a :: x !in gone
    ensures Without(a, gone) == a
  {
    if a != [] { WithoutNone(a[1..], gone); }
  }

  ghost function AnchorAt(ops: Operations, p: nat): string
    requires Acyclic(ops) && p <= |Visible(ops)|
  {
    if p == 0 then ROOT else Visible(ops)[p-1]
  }

  /** The visible characters a word typed at p is moved behind. */
  ghost function Overtaken(ops: Operations, p: nat, key: SortKey): set<string>
    requires Acyclic(ops) && p <= |Visible(ops)|
  {
    set y | y in Visible(ops) && InSmallerSubtree(ops, AnchorAt(ops, p), key, y)
  }

  lemma VisibleUpTo(ops: Operations, p: nat, i: nat)
    requires Acyclic(ops) && p <= |Visible(ops)| && i < |Visible(ops)|
    ensures IsAnchor(ops, AnchorAt(ops, p))
    ensures UpTo(ops, Visible(ops)[i], AnchorAt(ops, p)) <==> i < p
  {
    WithoutSorted(Paths(ops), Order(ops), Deleted(ops));
    if p > 0 {
      assert Visible(ops)[p-1] in Visible(ops);
      assert Visible(ops)[p-1] in Inserts(ops);
      PrecedesTrichotomy(Paths(ops), Visible(ops)[i], Visible(ops)[p-1]);
    }
  }

  lemma SliceSize(s: seq<string>, lo: nat, hi: nat, members: set<string>)
    requires lo <= hi <= |s|
    requires forall i, j :: 0 <= i < j < |s| ==> s[i] != s[j]
    requires forall y :: y in members <==> y in s[lo..hi]
    ensures |members| == hi - lo
    decreases hi - lo
  {
    if lo < hi {
      assert s[lo..hi] == [s[lo]] + s[lo+1..hi];
      forall y ensures y in members - {s[lo]} <==> y in s[lo+1..hi] {
        if y in s[lo+1..hi] { var i :| lo + 1 <= i < hi && s[i] == y; }
      }
      SliceSize(s, lo + 1, hi, members - {s[lo]});
    } else {
      assert members == {} by {
        forall y ensures y !in members { assert y !in s[lo..hi]; }
      }
    }
  }

  lemma SliceIs(v: seq<string>, p: nat, a: nat, members: set<string>)
    requires p <= |v| && a <= |v|
    requires forall i, j :: 0 <= i < j < |v| ==> v[i] != v[j]
    requires forall i :: 0 <= i < p ==> i < a && v[i] !in members
    requires forall i :: p <= i < |v| ==> (i < a <==> v[i] in members)
    requires forall y <- members :: y in v
    ensures p <= a == p + |members|
    ensures forall y :: y in members <==> y in v[p..a]
  {
    if p > 0 { assert v[p-1] !in members; }
    forall y ensures y in members <==> y in v[p..a] {
      if y in members { var i :| 0 <= i < |v| && v[i] == y; }
    }
    SliceSize(v, p, a, members);
  }

  lemma OvertakenMember(ops: Operations, p: nat, key: SortKey, i: nat)
    requires Acyclic(ops) && p <= |Visible(ops)| && i < |Visible(ops)|
    ensures AheadOfWord(ops, AnchorAt(ops, p), key, Visible(ops)[i]) <==>
            i < p || Visible(ops)[i] in Overtaken(ops, p, key)
    ensures i < p ==> Visible(ops)[i] !in Overtaken(ops, p, key)
  {
    var y, anchor := Visible(ops)[i], AnchorAt(ops, p);
    assert y in Visible(ops) && y in Inserts(ops);
    VisibleUpTo(ops, p, i);
    SmallerSubtreeByPath(ops, anchor, key, y);
    UpToByPath(ops, y, anchor);
    AroundNewKey(PathTo(ops, anchor), Path(ops, y), key);
  }

  lemma WithoutSplit(o: seq<string>, q: nat, gone: set<string>)
    requires q <= |o|
    ensures Without(o, gone) == Without(o[..q], gone) + Without(o[q..], gone)
    ensures forall i :: 0 <= i < |Without(o[..q], gone)| ==> Without(o, gone)[i] in o[..q]
    ensures forall i :: |Without(o[..q], gone)| <= i < |Without(o, gone)| ==> Without(o, gone)[i] in o[q..]
  {
    assert o == o[..q] + o[q..];
    WithoutConcat(o[..q], o[q..], gone);
    var left, right := Without(o[..q], gone), Without(o[q..], gone);
    forall i | 0 <= i < |left| ensures (left + right)[i] in o[..q] { assert left[i] in left; }
    forall i | |left| <= i < |left + right| ensures (left + right)[i] in o[q..] { assert right[i - |left|] in right; }
  }

  lemma SeparatesMember(ops: Operations, after: string, key: SortKey, q: nat, y: string)
    requires Acyclic(ops) && Separates(ops, after, key, q)
    ensures y in Order(ops)[..q] ==> AheadOfWord(ops, after, key, y)
    ensures y in Order(ops)[q..] ==> !AheadOfWord(ops, after, key, y)
  {
    var o := Order(ops);
    if y in o[..q] { var j :| 0 <= j < q && o[j] == y; }
    if y in o[q..] { var j :| q <= j < |o| && o[j] == y; }
  }

  lemma SplitPoint(ops: Operations, p: nat, key: SortKey, q: nat, i: nat)
    requires Acyclic(ops) && p <= |Visible(ops)| && Separates(ops, AnchorAt(ops, p), key, q) && i < |Visible(ops)|
    ensures i < |Without(Order(ops)[..q], Deleted(ops))| <==> i < p || Visible(ops)[i] in Overtaken(ops, p, key)
    ensures i < p ==> Visible(ops)[i] !in Overtaken(ops, p, key)
  {
    WithoutSplit(Order(ops), q, Deleted(ops));
    SeparatesMember(ops, AnchorAt(ops, p), key, q, Visible(ops)[i]);
    OvertakenMember(ops, p, key, i);
  }

  /** The split point of the visible list, counted from the position asked for. */
  lemma SplitVisible(ops: Operations, p: nat, key: SortKey, q: nat) returns (a: nat)
    requires Acyclic(ops) && p <= |Visible(ops)| && Separates(ops, AnchorAt(ops, p), key, q)
    ensures a == p + |Overtaken(ops, p, key)| && a <= |Visible(ops)|
    ensures Visible(ops)[..a] == Without(Order(ops)[..q], Deleted(ops))
    ensures Visible(ops)[a..] == Without(Order(ops)[q..], Deleted(ops))
    ensures forall y :: y in Overtaken(ops, p, key) <==> y in Visible(ops)[p..a]
  {
    var v, behind := Visible(ops), Overtaken(ops, p, key);
    WithoutSplit(Order(ops), q, Deleted(ops));
    a := |Without(Order(ops)[..q], Deleted(ops))|;
    forall i | 0 <= i < p ensures i < a && v[i] !in behind { SplitPoint(ops, p, key, q, i); }
    forall i | p <= i < |v| ensures i < a <==> v[i] in behind { SplitPoint(ops, p, key, q, i); }
    WithoutSorted(Paths(ops), Order(ops), Deleted(ops));
    SortedDistinct(Paths(ops), v);
    SliceIs(v, p, a, behind);
  }

  lemma FreshNotDeleted(ops: Operations, actor: string, counter: nat, n: nat)
    requires Fresh(ops, actor, counter)
    ensures forall id <- CharIds(actor, counter, n) :: id !in Deleted(ops)
  {
    var ids := CharIds(actor, counter, n);
    forall id <- ids ensures id !in Deleted(ops) {
      var i :| 0 <= i < n && ids[i] == id;
      assert Unmentioned(ops, MakeId(actor, counter + 1 + i));
    }
  }

  /** Typing w at p put it, unbroken, behind the visible characters it overtakes. */
  ghost predicate TypedAt(ops: Operations, ops': Operations, actor: string, counter: nat, p: nat, w: string)
    requires Acyclic(ops) && Acyclic(ops') && p <= |Visible(ops)|
  {
    var behind := Overtaken(ops, p, NewKey(actor, counter + 1));
    var a := p + |behind|;
    && a <= |Visible(ops)|
    && (forall y :: y in behind <==> y in Visible(ops)[p..a])
    && Visible(ops') == Visible(ops)[..a] + CharIds(actor, counter, |w|) + Visible(ops)[a..]
  }

  lemma VisibleOfPlaced(ops: Operations, ops': Operations, actor: string, counter: nat, p: nat, w: string, q: nat)
    requires Acyclic(ops) && Acyclic(ops') && p <= |Visible(ops)| && Fresh(ops, actor, counter)
    requires Deleted(ops') == Deleted(ops) && WordPlaced(ops, ops', actor, counter, w, q)
    requires Separates(ops, AnchorAt(ops, p), NewKey(actor, counter + 1), q)
    ensures TypedAt(ops, ops', actor, counter, p, w)
  {
    var a := SplitVisible(ops, p, NewKey(actor, counter + 1), q);
    FreshNotDeleted(ops, actor, counter, |w|);
    WithoutMiddle(Order(ops)[..q], CharIds(actor, counter, |w|), Order(ops)[q..], Deleted(ops));
  }

  lemma TypingLaw(ops: Operations, actor: string, counter: nat, clock: Clock, p: nat, w: string)
    requires WellKeyed(ops) && Acyclic(ops) && Fresh(ops, actor, counter) && p <= |Visible(ops)| && w != ""
    ensures var ops' := AddChars(ops, actor, counter, clock, AnchorAt(ops, p), w);
            WordAdded(ops, ops', actor, counter, w) && Acyclic(ops') && TypedAt(ops, ops', actor, counter, p, w)
  {
    assert IsAnchor(ops, AnchorAt(ops, p)) by {
      if p > 0 { VisibleUpTo(ops, p, 0); }
    }
    var q := PlaceWord(ops, actor, counter, clock, AnchorAt(ops, p), w);
    VisibleOfPlaced(ops, AddChars(ops, actor, counter, clock, AnchorAt(ops, p), w), actor, counter, p, w, q);
  }

  lemma WithoutMiddle(a: seq<string>, ids: seq<string>, b: seq<string>, gone: set<string>)
    requires forall id <- ids :: id !in gone
    ensures Without(a + ids + b, gone) == Without(a, gone) + ids + Without(b, gone)
  {
    WithoutNone(ids, gone);
    WithoutConcat(a + ids, b, gone);
    WithoutConcat(a, ids, gone);
  }
}
