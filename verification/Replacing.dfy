/** The effect of deletions, insertions and replacements on the text. */
module Replacing {
  import opened Sequences
  import opened Decimal
  import opened TextOperations
  import opened PathOrder
  import opened OperationForest
  import opened Convergence
  import opened Editing

  // ----- Deletions -----

  function Members(s: seq<string>): set<string> {
    set x | x in s
  }

  /** big differs from small only by delete operations. */
  ghost predicate OnlyDeletes(small: Operations, big: Operations) {
    Submap(small, big) && Inserts(big) == Inserts(small)
  }

  lemma FreshAfterDelete(ops: Operations, actor: string, counter: nat, clock: Clock, target: string)
    requires WellKeyed(ops) && Fresh(ops, actor, counter) && target in ops
    ensures var x := NewDelete(actor, counter + 1, clock, target);
            && x.operationId !in ops
            && WellKeyed(With(ops, x)) && OnlyDeletes(ops, With(ops, x))
            && Deleted(With(ops, x)) == Deleted(ops) + {target}
            && Fresh(With(ops, x), actor, counter + 1)
  {
    var x := NewDelete(actor, counter + 1, clock, target);
    assert Unmentioned(ops, x.operationId);
    forall c | c > counter + 1 ensures Unmentioned(With(ops, x), MakeId(actor, c)) {
      assert Unmentioned(ops, MakeId(actor, c));
      if MakeId(actor, c) == x.operationId { IdInjective(actor, c, actor, counter + 1); }
      NotRoot(actor, c);
    }
    forall t ensures t in Deleted(With(ops, x)) <==> t in Deleted(ops) + {target} {
      if t in Deleted(ops) {
        var id :| id in ops && ops[id].kind == Delete && ops[id].target == t;
        assert id in With(ops, x) && With(ops, x)[id] == ops[id];
      }
      assert With(ops, x)[x.operationId] == x;
    }
  }

  /** Recording deletions fails only at the safety limit. */
  lemma {:induction false} DeletesMerge(ops: Operations, actor: string, counter: nat, clock: Clock,
      targets: seq<string>)
    requires WellKeyed(ops) && Fresh(ops, actor, counter) && forall t <- targets :: t in ops
    ensures var r := Merge(ops, DeleteOps(actor, counter, clock, targets));
            && (r.outcome.Ok? <==> targets == [] || |ops| + |targets| <= MAX_OPERATIONS)
            && (r.outcome.Ok? ==>
                 && WellKeyed(r.ops) && OnlyDeletes(ops, r.ops) && Fresh(r.ops, actor, counter + |targets|)
                 && Deleted(r.ops) == Deleted(ops) + Members(targets))
    decreases |targets|
  {
    if targets != [] {
      var x := NewDelete(actor, counter + 1, clock, targets[0]);
      var xs := DeleteOps(actor, counter, clock, targets);
      FreshAfterDelete(ops, actor, counter, clock, targets[0]);
      assert xs[0] == x && xs[1..] == DeleteOps(actor, counter + 1, clock, targets[1..]);
      assert |With(ops, x)| == |ops| + 1;
      if |With(ops, x)| <= MAX_OPERATIONS {
        DeletesMerge(With(ops, x), actor, counter + 1, clock, targets[1..]);
        assert Members(targets) == {targets[0]} + Members(targets[1..]);
      }
    } else {
      assert Members(targets) == {};
    }
  }

  /** Deletions move nothing. */
  lemma DeletesKeepOrder(ops: Operations, ops': Operations)
    requires OnlyDeletes(ops, ops') && Acyclic(ops)
    ensures SameParents(ops, ops') && Acyclic(ops') && Order(ops') == Order(ops)
    ensures forall id <- Inserts(ops) :: Path(ops', id) == Path(ops, id)
  {
    forall id <- Inserts(ops') ensures Grounded(ops', id) {
      RootPathGrows(ops, ops', Path(ops, id));
      assert IsRootPathTo(ops', Path(ops, id), id);
    }
    OrderStable(ops, ops');
    WithoutNone(Order(ops'), {});
    assert Inserts(ops') - Inserts(ops) == {};
    forall id <- Inserts(ops) ensures Path(ops', id) == Path(ops, id) { PathsAgree(ops, ops', id); }
  }

  lemma {:induction false} WithoutTwice(s: seq<string>, a: set<string>, b: set<string>)
    ensures Without(Without(s, a), b) == Without(s, a + b)
  {
    if s != [] { WithoutTwice(s[1..], a, b); }
  }

  lemma {:induction false} WithoutAll(s: seq<string>, gone: set<string>)
    requires forall x <- s :: x in gone
    ensures Without(s, gone) == []
  {
    if s != [] { WithoutAll(s[1..], gone); }
  }

  lemma NotInSlice(s: seq<string>, lo: nat, hi: nat, x: string)
    requires lo <= hi <= |s| && forall i, j :: 0 <= i < j < |s| ==> s[i] != s[j]
    requires x in s[..lo] || x in s[hi..]
    ensures x !in s[lo..hi]
  {
    var i :| (0 <= i < lo || hi <= i < |s|) && s[i] == x;
    forall j | lo <= j < hi ensures s[j] != x { }
  }

  lemma WithoutMiddlePart(a: seq<string>, m: seq<string>, b: seq<string>, gone: set<string>)
    requires forall x <- a :: x !in gone
    requires forall x <- b :: x !in gone
    requires forall x <- m :: x in gone
    ensures Without(a + m + b, gone) == a + b
  {
    assert Without(a, gone) == a by { WithoutNone(a, gone); }
    assert Without(b, gone) == b by { WithoutNone(b, gone); }
    assert Without(m, gone) == [] by { WithoutAll(m, gone); }
    assert Without(a + m, gone) == a by { WithoutConcat(a, m, gone); }
    WithoutConcat(a + m, b, gone);
  }

  lemma WithoutSlice(s: seq<string>, lo: nat, hi: nat)
    requires lo <= hi <= |s| && forall i, j :: 0 <= i < j < |s| ==> s[i] != s[j]
    ensures Without(s, Members(s[lo..hi])) == s[..lo] + s[hi..]
  {
    var gone := Members(s[lo..hi]);
    SliceDisjoint(s, lo, hi);
    WithoutMiddlePart(s[..lo], s[lo..hi], s[hi..], gone);
    ThreeParts(s, lo, hi);
  }

  lemma ThreeParts(s: seq<string>, lo: nat, hi: nat)
    requires lo <= hi <= |s|
    ensures s[..lo] + s[lo..hi] + s[hi..] == s
  {
  }

  lemma SliceDisjoint(s: seq<string>, lo: nat, hi: nat)
    requires lo <= hi <= |s| && forall i, j :: 0 <= i < j < |s| ==> s[i] != s[j]
    ensures forall x <- s[..lo] :: x !in Members(s[lo..hi])
    ensures forall x <- s[hi..] :: x !in Members(s[lo..hi])
  {
    forall x <- s[..lo] ensures x !in Members(s[lo..hi]) { NotInSlice(s, lo, hi, x); }
    forall x <- s[hi..] ensures x !in Members(s[lo..hi]) { NotInSlice(s, lo, hi, x); }
  }

  lemma VisibleFacts(ops: Operations)
    requires Acyclic(ops)
    ensures forall i, j :: 0 <= i < j < |Visible(ops)| ==> Visible(ops)[i] != Visible(ops)[j]
    ensures forall y <- Visible(ops) :: y in Inserts(ops)
  {
    WithoutSorted(Paths(ops), Order(ops), Deleted(ops));
    SortedDistinct(Paths(ops), Visible(ops));
  }

  /** Deleting a slice removes exactly that slice. */
  lemma DeletingLaw(ops: Operations, actor: string, counter: nat, clock: Clock, lo: nat, hi: nat)
    requires WellKeyed(ops) && Acyclic(ops) && Fresh(ops, actor, counter) && lo <= hi <= |Visible(ops)|
    ensures var r := Merge(ops, DeleteOps(actor, counter, clock, Visible(ops)[lo..hi]));
            && (r.outcome.Ok? <==> lo == hi || |ops| + (hi - lo) <= MAX_OPERATIONS)
            && (r.outcome.Ok? ==>
                 && WellKeyed(r.ops) && OnlyDeletes(ops, r.ops) && Fresh(r.ops, actor, counter + (hi - lo))
                 && Acyclic(r.ops) && Visible(r.ops) == Visible(ops)[..lo] + Visible(ops)[hi..])
  {
    VisibleFacts(ops);
    var targets := Visible(ops)[lo..hi];
    forall t <- targets ensures t in ops { assert t in Visible(ops); }
    DeletesMerge(ops, actor, counter, clock, targets);
    var r := Merge(ops, DeleteOps(actor, counter, clock, targets));
    if r.outcome.Ok? {
      DeletesKeepOrder(ops, r.ops);
      WithoutTwice(Order(ops), Deleted(ops), Members(targets));
      WithoutSlice(Visible(ops), lo, hi);
    }
  }

  // ----- Text -----

  /** Inserts carry exactly one character, as validated on load. */
  ghost predicate SingleChars(ops: Operations) {
    forall id <- Inserts(ops) :: |ops[id].value| == 1
  }

  lemma {:induction false} RenderLength(ops: Operations, ids: seq<string>)
    requires SingleChars(ops) && forall id <- ids :: id in Inserts(ops)
    ensures |Render(ops, ids)| == |ids|
  {
    if ids != [] { RenderLength(ops, ids[1..]); }
  }

  lemma RenderSlice(ops: Operations, ids: seq<string>, n: nat)
    requires SingleChars(ops) && n <= |ids| && forall id <- ids :: id in Inserts(ops)
    ensures |Render(ops, ids)| == |ids|
    ensures forall id <- ids[..n] :: id in ops
    ensures forall id <- ids[n..] :: id in ops
    ensures Render(ops, ids[..n]) == Render(ops, ids)[..n]
    ensures Render(ops, ids[n..]) == Render(ops, ids)[n..]
  {
    assert ids == ids[..n] + ids[n..];
    RenderConcat(ops, ids[..n], ids[n..]);
    RenderLength(ops, ids[..n]);
    RenderLength(ops, ids);
  }

  lemma {:induction false} RenderWord(ops: Operations, ids: seq<string>, w: string)
    requires |ids| == |w| && forall i :: 0 <= i < |w| ==> ids[i] in ops && ops[ids[i]].value == [w[i]]
    ensures Render(ops, ids) == w
  {
    if w != "" {
      RenderWord(ops, ids[1..], w[1..]);
      assert w == [w[0]] + w[1..];
    }
  }

  /** The text after typing: the word stands, unbroken, at the slot of the typing law. */
  lemma TypedText(ops: Operations, ops': Operations, actor: string, counter: nat, p: nat, w: string)
    requires Acyclic(ops) && Acyclic(ops') && p <= |Visible(ops)|
    requires WordAdded(ops, ops', actor, counter, w) && TypedAt(ops, ops', actor, counter, p, w)
    ensures var a := p + |Overtaken(ops, p, NewKey(actor, counter + 1))|;
            && a <= |Visible(ops)| && (forall y <- Visible(ops) :: y in ops)
            && Text(ops') == Render(ops, Visible(ops)[..a]) + w + Render(ops, Visible(ops)[a..])
  {
    VisibleFacts(ops);
    VisibleFacts(ops');
    var v, ids := Visible(ops), CharIds(actor, counter, |w|);
    var a := p + |Overtaken(ops, p, NewKey(actor, counter + 1))|;
    forall y <- v[..a] ensures y in ops { assert y in v; }
    forall y <- v[a..] ensures y in ops { assert y in v; }
    RenderConcat(ops', v[..a] + ids, v[a..]);
    RenderConcat(ops', v[..a], ids);
    RenderSame(ops, ops', v[..a]);
    RenderSame(ops, ops', v[a..]);
    RenderWord(ops', ids, w);
  }

  /** Appending is exact, whatever the document. */
  lemma AppendExact(ops: Operations, actor: string, counter: nat, clock: Clock, w: string)
    requires WellKeyed(ops) && Acyclic(ops) && Fresh(ops, actor, counter) && w != ""
    ensures var ops' := AddChars(ops, actor, counter, clock, AnchorAt(ops, |Visible(ops)|), w);
            Acyclic(ops') && Text(ops') == Text(ops) + w
  {
    TypingLaw(ops, actor, counter, clock, |Visible(ops)|, w);
    TypedText(ops, AddChars(ops, actor, counter, clock, AnchorAt(ops, |Visible(ops)|), w), actor, counter,
        |Visible(ops)|, w);
    var v := Visible(ops);
    assert v[..|v|] == v && v[|v|..] == [];
  }

  // ----- Replacement -----

  /** p is the length of the longest common prefix. */
  ghost predicate IsCommonPrefix(a: string, b: string, p: nat) {
    && p <= |a| && p <= |b| && a[..p] == b[..p]
    && (p == |a| || p == |b| || a[p] != b[p])
  }

  /** s is the length of the longest common suffix that does not reach into the first p characters. */
  ghost predicate IsCommonSuffix(a: string, b: string, p: nat, s: nat) {
    && p + s <= |a| && p + s <= |b| && a[|a|-s..] == b[|b|-s..]
    && (p + s == |a| || p + s == |b| || a[|a|-s-1] != b[|b|-s-1])
  }

  /** The kept characters behind the edit that sit under smaller-key children of its anchor. */
  ghost function Displaced(ops: Operations, p: nat, hi: nat, key: SortKey): set<string>
    requires Acyclic(ops) && p <= hi <= |Visible(ops)|
  {
    set y | y in Visible(ops)[hi..] && InSmallerSubtree(ops, AnchorAt(ops, p), key, y)
  }

  /** The document after deleting [p, hi) and typing w at p. */
  ghost function Replaced(ops: Operations, actor: string, counter: nat, clock: Clock, p: nat, hi: nat,
      w: string): Operations
    requires Acyclic(ops) && p <= hi <= |Visible(ops)|
  {
    AddChars(Merge(ops, DeleteOps(actor, counter, clock, Visible(ops)[p..hi])).ops,
             actor, counter + (hi - p), clock, AnchorAt(ops, p), w)
  }

  lemma OvertakenAfterDelete(ops: Operations, mid: Operations, p: nat, hi: nat, key: SortKey)
    requires WellKeyed(ops) && Acyclic(ops) && OnlyDeletes(ops, mid) && p <= hi <= |Visible(ops)|
    requires Acyclic(mid) && Visible(mid) == Visible(ops)[..p] + Visible(ops)[hi..]
    ensures AnchorAt(mid, p) == AnchorAt(ops, p)
    ensures Overtaken(mid, p, key) == Displaced(ops, p, hi, key)
  {
    DeletesKeepOrder(ops, mid);
    VisibleFacts(ops);
    var v, anchor := Visible(ops), AnchorAt(ops, p);
    forall y <- v ensures InSmallerSubtree(mid, anchor, key, y) <==> InSmallerSubtree(ops, anchor, key, y) {
      SmallerSame(ops, mid, anchor, key, y);
    }
    forall y ensures y in Overtaken(mid, p, key) <==> y in Displaced(ops, p, hi, key) {
      if y in Visible(mid) {
        assert y in v;
        if y in v[..p] {
          var i :| 0 <= i < p && v[i] == y;
          OvertakenMember(ops, p, key, i);
        }
      }
    }
  }

  lemma SmallerSame(ops: Operations, mid: Operations, anchor: string, key: SortKey, y: string)
    requires Acyclic(ops) && OnlyDeletes(ops, mid) && y in Inserts(ops)
    ensures InSmallerSubtree(mid, anchor, key, y) <==> InSmallerSubtree(ops, anchor, key, y)
  {
    DeletesKeepOrder(ops, mid);
  }

  /** r is t with [p, hi) removed and w put behind the k characters that followed. */
  ghost predicate Spliced(t: string, r: string, p: nat, hi: nat, k: nat, w: string) {
    && p <= hi && hi + k <= |t|
    && r == t[..p] + t[hi..hi+k] + w + t[hi+k..]
  }

  lemma SplicedHere(t: string, r: string, a: nat, w: string)
    requires a <= |t| && r == t[..a] + w + t[a..]
    ensures Spliced(t, r, a, a, 0, w)
  {
    assert t[..a] + t[a..a+0] == t[..a];
  }

  lemma CutString(t: string, m: string, p: nat, hi: nat, k: nat, w: string, r: string)
    requires p <= hi <= |t| && m == t[..p] + t[hi..] && Spliced(m, r, p + k, p + k, 0, w)
    ensures Spliced(t, r, p, hi, k, w)
  {
    assert m[..p+k] == t[..p] + t[hi..hi+k];
    assert m[p+k..] == t[hi+k..];
    assert m[p+k..p+k+0] == "";
  }

  /** The text of a document from which a slice was deleted. */
  lemma TextOfCut(ops: Operations, mid: Operations, p: nat, hi: nat)
    requires Acyclic(ops) && SingleChars(ops) && OnlyDeletes(ops, mid) && Acyclic(mid)
    requires p <= hi <= |Visible(ops)| && Visible(mid) == Visible(ops)[..p] + Visible(ops)[hi..]
    ensures |Text(ops)| == |Visible(ops)| && SingleChars(mid)
    ensures Text(mid) == Text(ops)[..p] + Text(ops)[hi..]
  {
    VisibleFacts(ops);
    var v := Visible(ops);
    assert SingleChars(mid) by {
      forall id <- Inserts(mid) ensures |mid[id].value| == 1 { assert id in Inserts(ops); }
    }
    RenderSame(ops, mid, v);
    RenderSlice(mid, v, p);
    RenderSlice(mid, v, hi);
    VisibleFacts(mid);
    RenderConcat(mid, v[..p], v[hi..]);
  }

  /** A document the edits are exact on: a forest of single characters, fresh identifiers. */
  ghost predicate Editable(ops: Operations, actor: string, counter: nat) {
    WellKeyed(ops) && Acyclic(ops) && Fresh(ops, actor, counter) && SingleChars(ops)
  }

  lemma AfterDeletion(ops: Operations, actor: string, counter: nat, clock: Clock, p: nat, hi: nat, key: SortKey)
    requires Editable(ops, actor, counter)
    requires p <= hi <= |Visible(ops)| && (p == hi || |ops| + (hi - p) <= MAX_OPERATIONS)
    ensures var mid := Merge(ops, DeleteOps(actor, counter, clock, Visible(ops)[p..hi])).ops;
            && Editable(mid, actor, counter + (hi - p)) && p <= |Visible(mid)| && |Text(ops)| == |Visible(ops)|
            && Text(mid) == Text(ops)[..p] + Text(ops)[hi..]
            && AnchorAt(mid, p) == AnchorAt(ops, p) && |Overtaken(mid, p, key)| == |Displaced(ops, p, hi, key)|
  {
    var mid := Merge(ops, DeleteOps(actor, counter, clock, Visible(ops)[p..hi])).ops;
    DeletingLaw(ops, actor, counter, clock, p, hi);
    TextOfCut(ops, mid, p, hi);
    OvertakenAfterDelete(ops, mid, p, hi, key);
  }

  /** What a replacement really shows: the displaced characters slip in front of the new ones. */
  lemma ReplacedText(ops: Operations, actor: string, counter: nat, clock: Clock, p: nat, hi: nat, w: string, k: nat)
    requires Editable(ops, actor, counter) && w != ""
    requires p <= hi <= |Visible(ops)| && (p == hi || |ops| + (hi - p) <= MAX_OPERATIONS)
    requires k == |Displaced(ops, p, hi, NewKey(actor, counter + (hi - p) + 1))|
    ensures Acyclic(Replaced(ops, actor, counter, clock, p, hi, w)) && |Text(ops)| == |Visible(ops)|
    ensures Spliced(Text(ops), Text(Replaced(ops, actor, counter, clock, p, hi, w)), p, hi, k, w)
  {
    var mid, anchor := AfterCut(ops, actor, counter, clock, p, hi, k);
    TypedAfterCut(Text(ops), mid, AddChars(mid, actor, counter + (hi - p), clock, anchor, w), actor, counter + (hi - p),
                  clock, p, hi, anchor, w, k);
  }

  /** The state between the deletion and the typing of a replacement. */
  lemma AfterCut(ops: Operations, actor: string, counter: nat, clock: Clock, p: nat, hi: nat, k: nat)
      returns (mid: Operations, anchor: string)
    requires Editable(ops, actor, counter)
    requires p <= hi <= |Visible(ops)| && (p == hi || |ops| + (hi - p) <= MAX_OPERATIONS)
    requires k == |Displaced(ops, p, hi, NewKey(actor, counter + (hi - p) + 1))|
    ensures |Text(ops)| == |Visible(ops)| && Editable(mid, actor, counter + (hi - p)) && p <= |Visible(mid)|
    ensures Text(mid) == Text(ops)[..p] + Text(ops)[hi..]
    ensures anchor == AnchorAt(mid, p) && k == |Overtaken(mid, p, NewKey(actor, counter + (hi - p) + 1))|
    ensures forall w ::
            Replaced(ops, actor, counter, clock, p, hi, w) == AddChars(mid, actor, counter + (hi - p), clock, anchor, w)
  {
    mid, anchor := Merge(ops, DeleteOps(actor, counter, clock, Visible(ops)[p..hi])).ops, AnchorAt(ops, p);
    AfterDeletion(ops, actor, counter, clock, p, hi, NewKey(actor, counter + (hi - p) + 1));
  }

  lemma TypedAfterCut(
    t: string, mid: Operations, ops': Operations, actor: string, counter: nat, clock: Clock,
    p: nat, hi: nat, anchor: string, w: string, k: nat)
    requires Editable(mid, actor, counter) && p <= hi <= |t| && p <= |Visible(mid)| && w != ""
    requires Text(mid) == t[..p] + t[hi..]
    requires anchor == AnchorAt(mid, p) && k == |Overtaken(mid, p, NewKey(actor, counter + 1))|
    requires ops' == AddChars(mid, actor, counter, clock, anchor, w)
    ensures Acyclic(ops') && Spliced(t, Text(ops'), p, hi, k, w)
  {
    TypedIntoText(mid, ops', actor, counter, clock, p, anchor, w, k);
    CutString(t, Text(mid), p, hi, k, w, Text(ops'));
  }

  /** Typing, in terms of the text alone. */
  lemma TypedIntoText(
    ops: Operations, ops': Operations, actor: string, counter: nat, clock: Clock, p: nat, anchor: string, w: string,
    k: nat)
    requires Editable(ops, actor, counter) && p <= |Visible(ops)| && w != ""
    requires anchor == AnchorAt(ops, p) && k == |Overtaken(ops, p, NewKey(actor, counter + 1))|
    requires ops' == AddChars(ops, actor, counter, clock, anchor, w)
    ensures Acyclic(ops') && |Text(ops)| == |Visible(ops)| && Spliced(Text(ops), Text(ops'), p + k, p + k, 0, w)
  {
    TypingLaw(ops, actor, counter, clock, p, w);
    SpliceRendered(ops, ops', actor, counter, p, p + k, w);
  }

  lemma SpliceRendered(ops: Operations, ops': Operations, actor: string, counter: nat, p: nat, a: nat, w: string)
    requires WellKeyed(ops) && Acyclic(ops) && Acyclic(ops') && SingleChars(ops) && p <= |Visible(ops)|
    requires WordAdded(ops, ops', actor, counter, w) && TypedAt(ops, ops', actor, counter, p, w)
    requires a == p + |Overtaken(ops, p, NewKey(actor, counter + 1))|
    ensures |Text(ops)| == |Visible(ops)| && Spliced(Text(ops), Text(ops'), a, a, 0, w)
  {
    TypedText(ops, ops', actor, counter, p, w);
    VisibleFacts(ops);
    RenderSlice(ops, Visible(ops), a);
    SplicedHere(Text(ops), Text(ops'), a, w);
  }

  lemma DisplacedSize(ops: Operations, p: nat, hi: nat, key: SortKey)
    requires Acyclic(ops) && p <= hi <= |Visible(ops)|
    ensures hi + |Displaced(ops, p, hi, key)| <= |Visible(ops)|
  {
    VisibleFacts(ops);
    var v := Visible(ops);
    SliceSize(v, hi, |v|, Members(v[hi..]));
    SubsetSize(Displaced(ops, p, hi, key), Members(v[hi..]));
  }

  /** Deleting shows the text without the slice. */
  lemma DeletedText(ops: Operations, actor: string, counter: nat, clock: Clock, lo: nat, hi: nat)
    requires Editable(ops, actor, counter)
    requires lo <= hi <= |Visible(ops)| && (lo == hi || |ops| + (hi - lo) <= MAX_OPERATIONS)
    ensures Acyclic(Replaced(ops, actor, counter, clock, lo, hi, ""))
    ensures |Text(ops)| == |Visible(ops)|
    ensures Text(Replaced(ops, actor, counter, clock, lo, hi, "")) == Text(ops)[..lo] + Text(ops)[hi..]
  {
    DeletingLaw(ops, actor, counter, clock, lo, hi);
    TextOfCut(ops, Replaced(ops, actor, counter, clock, lo, hi, ""), lo, hi);
  }

  /** Two words around a fixed frame: the texts agree exactly when the middles do. */
  lemma SameMiddle(a: string, x: string, y: string, b: string)
    requires |x| == |y|
    ensures a + x + b == a + y + b <==> x == y
  {
    if a + x + b == a + y + b {
      assert x == (a + x + b)[|a|..|a|+|x|] && y == (a + y + b)[|a|..|a|+|y|];
    }
  }

  /** How the text after a replacement relates to the requested one, when k displaced characters
      slip in front of the new ones. */
  ghost predicate ReplaceOutcome(old': string, new': string, value: string, p: nat, s: nat, k: nat)
    requires p + s <= |old'| && p + s <= |value|
  {
    var hi, w := |old'| - s, value[p..|value|-s];
    && k <= s
    && (new' == value <==> old'[hi..hi+k] + w == w + old'[hi..hi+k])
    && (w == "" || s == 0 || k == 0 ==> new' == value)
    && (w != "" && hi == p ==> (new' == value <==> k == 0))
  }

  lemma SwapLaw(old': string, new': string, value: string, p: nat, s: nat, k: nat, hi: nat, w: string)
    requires IsCommonPrefix(old', value, p) && IsCommonSuffix(old', value, p, s) && k <= s
    requires hi == |old'| - s && w == value[p..|value|-s]
    requires if w == "" then new' == old'[..p] + old'[hi..] else Spliced(old', new', p, hi, k, w)
    ensures ReplaceOutcome(old', new', value, p, s, k)
  {
    var t, rest := old'[hi..hi+k], old'[hi+k..];
    assert old'[hi..] == t + rest;
    assert value == old'[..p] + w + old'[hi..] by {
      assert value == value[..p] + w + value[|value|-s..];
    }
    SwapIff(old'[..p], t, w, rest, new', value);
    assert w != "" && hi == p && k > 0 ==> t[0] == old'[p] && w[0] == value[p];
  }

  lemma SwapIff(a: string, t: string, w: string, rest: string, new': string, value: string)
    requires value == a + w + (t + rest)
    requires new' == if w == "" then a + (t + rest) else a + t + w + rest
    ensures new' == value <==> t + w == w + t
    ensures w == "" || t == "" ==> t + w == w + t
    ensures w != "" && t != "" && t[0] != w[0] ==> t + w != w + t
  {
    assert value == a + (w + t) + rest;
    assert new' == a + (t + w) + rest by {
      if w == "" { assert t + w == t; }
    }
    SameMiddle(a, t + w, w + t, rest);
    if w != "" && t != "" { assert (t + w)[0] == t[0] && (w + t)[0] == w[0]; }
    if w == "" || t == "" { assert t + w == w + t; }
  }

  /** When a replacement shows the requested text: exactly when the displaced characters and the
      new ones can change places. */
  lemma ReplaceExact(
    ops: Operations, actor: string, counter: nat, clock: Clock,
    value: string, p: nat, s: nat, hi: nat, w: string, k: nat)
    requires Editable(ops, actor, counter) && |Text(ops)| == |Visible(ops)|
    requires IsCommonPrefix(Text(ops), value, p) && IsCommonSuffix(Text(ops), value, p, s)
    requires hi == |Text(ops)| - s && w == value[p..|value|-s]
    requires p == hi || |ops| + (hi - p) <= MAX_OPERATIONS
    requires k == |Displaced(ops, p, hi, NewKey(actor, counter + (hi - p) + 1))|
    ensures Acyclic(Replaced(ops, actor, counter, clock, p, hi, w))
    ensures ReplaceOutcome(Text(ops), Text(Replaced(ops, actor, counter, clock, p, hi, w)), value, p, s, k)
  {
    DisplacedSize(ops, p, hi, NewKey(actor, counter + (hi - p) + 1));
    if w == "" {
      DeletedText(ops, actor, counter, clock, p, hi);
    } else {
      ReplacedText(ops, actor, counter, clock, p, hi, w, k);
    }
    SwapLaw(Text(ops), Text(Replaced(ops, actor, counter, clock, p, hi, w)), value, p, s, k, hi, w);
  }
}
