/** Which of two characters behind the same one is read first, in terms of numbers and characters:
    the smaller counter, then the actor's name, then the identifier. */
module SiblingOrder {
  import opened Decimal
  import opened TextOperations
  import opened PathOrder
  import opened OperationForest
  import opened Convergence
  import opened Editing

  /** The strings agree up to some place, where a ends or has the smaller character. */
  ghost predicate SpeltBefore(a: string, b: string) {
    exists n: nat :: DiffersAt(a, b, n)
  }

  ghost predicate DiffersAt(a: string, b: string, n: nat) {
    n <= |a| && n < |b| && a[..n] == b[..n] && (n == |a| || a[n] < b[n])
  }

  lemma {:induction false} StringLessIsSpelling(a: string, b: string)
    ensures StringLess(a, b) <==> SpeltBefore(a, b)
  {
    if b == [] || a == [] || a[0] != b[0] {
      FirstDecides(a, b);
    } else {
      StringLessIsSpelling(a[1..], b[1..]);
      if StringLess(a, b) {
        var n: nat :| DiffersAt(a[1..], b[1..], n);
        assert a[..n+1] == [a[0]] + a[1..][..n] && b[..n+1] == [b[0]] + b[1..][..n];
        assert DiffersAt(a, b, n + 1);
      }
      if SpeltBefore(a, b) {
        var n: nat :| DiffersAt(a, b, n);
        assert n > 0;
        assert a[1..][..n-1] == a[..n][1..] && b[1..][..n-1] == b[..n][1..];
        assert DiffersAt(a[1..], b[1..], n - 1);
      }
    }
  }

  lemma FirstDecides(a: string, b: string)
    requires b == [] || a == [] || a[0] != b[0]
    ensures StringLess(a, b) <==> SpeltBefore(a, b)
  {
    if StringLess(a, b) { assert DiffersAt(a, b, 0); }
    if SpeltBefore(a, b) {
      var n: nat :| DiffersAt(a, b, n);
      if n > 0 { SameHead(a, b, n); }
    }
  }

  lemma SameHead(a: string, b: string, n: nat)
    requires 0 < n <= |a| && n <= |b| && a[..n] == b[..n]
    ensures a[0] == b[0]
  {
    assert a[..n][0] == b[..n][0];
  }

  lemma {:induction false} LexSiblings(p: seq<SortKey>, k: SortKey, l: SortKey)
    ensures LexLess(p + [k], p + [l]) <==> KeyLess(k, l)
  {
    KeyTrichotomy(k, l);
    if p != [] {
      KeyTrichotomy(p[0], p[0]);
      assert (p + [k])[1..] == p[1..] + [k] && (p + [l])[1..] == p[1..] + [l];
      LexSiblings(p[1..], k, l);
    }
  }

  /** Of two characters behind the same one (or both on top), the first to be read is the one with the
      smaller counter; at equal counters the one whose actor comes first in spelling; at equal actors
      the one whose identifier does. */
  lemma SiblingsInOrder(ops: Operations, i: nat, j: nat)
    requires WellKeyed(ops) && Acyclic(ops) && i < |Order(ops)| && j < |Order(ops)|
    requires var x, y := Order(ops)[i], Order(ops)[j]; x in ops && y in ops && Parent(ops, x) == Parent(ops, y)
    ensures var x, y := ops[Order(ops)[i]], ops[Order(ops)[j]];
            i < j <==>
              || x.counter < y.counter
              || (x.counter == y.counter && SpeltBefore(x.actor, y.actor))
              || (x.counter == y.counter && x.actor == y.actor && SpeltBefore(x.operationId, y.operationId))
  {
    var o := Order(ops);
    assert o[i] in o && o[j] in o;
    var x, y := o[i], o[j];
    var k, l := KeyOf(ops[x]), KeyOf(ops[y]);
    var p := if Parent(ops, x) == ROOT then [] else Path(ops, Parent(ops, x));
    SiblingPath(ops, x);
    SiblingPath(ops, y);
    LexSiblings(p, k, l);
    LexSiblings(p, l, k);
    KeyTrichotomy(k, l);
    assert i < j ==> Precedes(Paths(ops), x, y);
    assert j < i ==> Precedes(Paths(ops), y, x);
    StringLessIsSpelling(k.actor, l.actor);
    StringLessIsSpelling(k.id, l.id);
  }

  lemma SiblingPath(ops: Operations, id: string)
    requires WellKeyed(ops) && Acyclic(ops) && id in Inserts(ops)
    ensures Path(ops, id) ==
            (if Parent(ops, id) == ROOT then [] else Path(ops, Parent(ops, id))) + [KeyOf(ops[id])]
  {
    if Parent(ops, id) == ROOT {
      PathOfTop(ops, id);
    } else {
      assert Grounded(ops, Parent(ops, id));
      PathOfChild(ops, id);
    }
  }

  // ----- Two authors -----

  /** Two authors each type one character into an empty document, and the replicas merge. */
  function TwoAuthors(a: string, b: string, clock: Clock): Operations {
    map[MakeId(a, 1) := NewInsert(a, 1, clock, ROOT, 'a'), MakeId(b, 1) := NewInsert(b, 1, clock, ROOT, 'b')]
  }

  /** Whose name comes first in spelling is shown first. */
  lemma FirstNameFirst(a: string, b: string, clock: Clock)
    requires SafeActor(a) && SafeActor(b) && a != b
    ensures var ops := TwoAuthors(a, b, clock);
            Acyclic(ops) && Text(ops) == if SpeltBefore(a, b) then "ab" else "ba"
  {
    var ops, x, y := TwoAuthors(a, b, clock), MakeId(a, 1), MakeId(b, 1);
    if x == y { IdInjective(a, 1, b, 1); }
    NotRoot(a, 1);
    NotRoot(b, 1);
    assert Inserts(ops) == {x, y};
    PathOfTop(ops, x);
    PathOfTop(ops, y);
    var o := Order(ops);
    assert IsOrder(ops, o);
    OrderOfTwo(Paths(ops), o, x, y);
    SiblingsInOrder(ops, 0, 1);
    StringTrichotomy(a, b);
    StringLessIsSpelling(a, b);
    StringLessIsSpelling(b, a);
    WithoutNone(o, Deleted(ops));
    RenderTwo(ops, x, y);
    RenderTwo(ops, y, x);
  }

  lemma RenderTwo(ops: Operations, x: string, y: string)
    requires x in ops && y in ops
    ensures Render(ops, [x, y]) == ops[x].value + ops[y].value
  {
    assert [x, y][1..] == [y] && [y][1..] == [];
    assert Render(ops, [y]) == ops[y].value + "" == ops[y].value;
  }

  lemma OrderOfTwo(path: PathOf, o: seq<string>, x: string, y: string)
    requires Sorted(path, o) && Lists(o, {x, y}) && x != y
    ensures o == [x, y] || o == [y, x]
  {
    var third := if |o| > 2 then o[2] else x;
    assert x in o && y in o;
    forall i, j | 0 <= i < j < |o| ensures o[i] != o[j] { LexTrichotomy(path(o[i]), path(o[j])); }
    forall i | 0 <= i < |o| ensures o[i] == x || o[i] == y { assert o[i] in o; }
    assert |o| >= 2;
    assert o[0] != o[1] && third in {o[0], o[1]};
  }

  lemma AliceBeforeBob(clock: Clock)
    ensures var ops := TwoAuthors("alice", "bob", clock);
            Acyclic(ops) && Text(ops) == "ab"
  {
    assert DiffersAt("alice", "bob", 0);
    FirstNameFirst("alice", "bob", clock);
  }

  // ----- Identifiers -----

  /** The first number that does not fit into the padding of an identifier. */
  const TOO_LARGE := 1_0000_0000_0000_0000_0000

  /** As long as counters have at most twenty digits, all identifiers of an actor have the same length and
      come in the order of the counters. */
  lemma IdsSortLikeCounters(actor: string, c: nat, d: nat)
    ensures c < TOO_LARGE && d < TOO_LARGE ==> (SpeltBefore(MakeId(actor, c), MakeId(actor, d)) <==> c < d)
    ensures c < TOO_LARGE ==> |MakeId(actor, c)| == |actor| + 21
  {
    var head := actor + ":";
    if c < TOO_LARGE && d < TOO_LARGE {
      PaddedLength(c);
      PaddedLength(d);
      PaddedValue(c);
      PaddedValue(d);
      SpellingBehind(head, Pad(Digits(c), 20), Pad(Digits(d), 20));
      SpellingIsValue(Pad(Digits(c), 20), Pad(Digits(d), 20));
    }
    if c < TOO_LARGE { PaddedLength(c); }
  }

  lemma PaddedValue(n: nat)
    ensures Value(Pad(Digits(n), 20)) == n
  {
    ValueOfDigits(n);
    ValueOfPad(Digits(n), 20);
  }

  lemma PaddedLength(n: nat)
    requires n < TOO_LARGE
    ensures |Pad(Digits(n), 20)| == 20
  {
    DigitsFit(n, 20);
    assert Power(5) == 10_0000 && Power(10) == 10_0000 * 10_0000 by { PowerOfFive(); }
    PowerOfSum(10, 10);
    PadFills(Digits(n), 20);
  }

  function Power(k: nat): nat {
    if k == 0 then 1 else 10 * Power(k - 1)
  }

  lemma PowerOfFive()
    ensures Power(5) == 10_0000 && Power(10) == 10_0000 * 10_0000
  {
    assert Power(2) == 100 && Power(4) == 1_0000;
    PowerOfSum(5, 5);
  }

  lemma {:induction false} PowerOfSum(k: nat, l: nat)
    ensures Power(k + l) == Power(k) * Power(l)
  {
    if k > 0 { PowerOfSum(k - 1, l); }
  }

  lemma {:induction false} DigitsFit(n: nat, k: nat)
    requires k >= 1 && n < Power(k)
    ensures |Digits(n)| <= k
  {
    if n >= 10 { DigitsFit(n / 10, k - 1); }
  }

  lemma {:induction false} PadFills(s: string, width: nat)
    requires AllDigits(s) && |s| <= width
    ensures |Pad(s, width)| == width
    decreases width - |s|
  {
    if |s| < width { PadFills("0" + s, width); }
  }

  lemma SharedHead(head: string, a: string, b: string, n: nat)
    requires n < |head|
    ensures (head + a)[n] == (head + b)[n]
  {
  }

  lemma SpellingBehind(head: string, a: string, b: string)
    ensures SpeltBefore(head + a, head + b) <==> SpeltBefore(a, b)
  {
    if SpeltBefore(a, b) {
      var n: nat :| DiffersAt(a, b, n);
      assert (head + a)[..|head| + n] == head + a[..n] && (head + b)[..|head| + n] == head + b[..n];
      assert DiffersAt(head + a, head + b, |head| + n);
    }
    if SpeltBefore(head + a, head + b) {
      var n: nat :| DiffersAt(head + a, head + b, n);
      if n < |head| { SharedHead(head, a, b, n); }
      var k := n - |head|;
      assert a[..k] == (head + a)[..n][|head|..] && b[..k] == (head + b)[..n][|head|..];
      assert DiffersAt(a, b, k);
    }
  }

  /** Digit strings of one length are spelt in the order of the numbers they denote. */
  lemma {:induction false} SpellingIsValue(a: string, b: string)
    requires AllDigits(a) && AllDigits(b) && |a| == |b|
    ensures SpeltBefore(a, b) <==> Value(a) < Value(b)
    decreases |a|
  {
    if a != "" {
      var f, g := a[..|a|-1], b[..|b|-1];
      SpellingIsValue(f, g);
      SpellingIsValue(g, f);
      StringTrichotomy(f, g);
      StringLessIsSpelling(f, g);
      StringLessIsSpelling(g, f);
      LastDecides(a, b);
      var x, y := a[|a|-1], b[|b|-1];
      assert f == g || Value(f) != Value(g);
      assert x in a && y in b;
      assert Value(a) == 10 * Value(f) + DigitValue(x) && Value(b) == 10 * Value(g) + DigitValue(y);
    }
  }

  lemma LastDecides(a: string, b: string)
    requires |a| == |b| > 0
    ensures SpeltBefore(a, b) <==>
            SpeltBefore(a[..|a|-1], b[..|b|-1]) || (a[..|a|-1] == b[..|b|-1] && a[|a|-1] < b[|b|-1])
  {
    var f, g := a[..|a|-1], b[..|b|-1];
    if SpeltBefore(f, g) {
      var n: nat :| DiffersAt(f, g, n);
      assert f[..n] == a[..n] && g[..n] == b[..n];
      assert DiffersAt(a, b, n);
    }
    if f == g && a[|a|-1] < b[|b|-1] { assert DiffersAt(a, b, |f|); }
    if SpeltBefore(a, b) {
      var n: nat :| DiffersAt(a, b, n);
      if n < |f| {
        assert f[..n] == a[..n] && g[..n] == b[..n];
        assert DiffersAt(f, g, n);
      }
    }
  }
}
