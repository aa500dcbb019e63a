/** The immutable operations of a collaborative document and the order of siblings. */
module TextOperations {

  /** The name every top-level character hangs under. */
  const ROOT := "ROOT"

  /** The largest number of operations one document may hold. */
  const MAX_OPERATIONS := 250000

  datatype Result<+T> = Ok(value: T) | Err(error: Error)

  datatype Error = CyclicGraph | UnreachableCycle | ConflictingIdentifier | SafetyLimit

  datatype Kind = Insert | Delete

  datatype TextOperation = TextOperation(
    operationId: string, actor: string, counter: nat, kind: Kind,
    after: string, value: string, target: string, timestamp: real)

  type Operations = map<string, TextOperation>

  /** The dictionary is keyed by the operation's own identifier. */
  ghost predicate WellKeyed(ops: Operations) {
    forall id <- ops :: ops[id].operationId == id
  }

  datatype SortKey = SortKey(counter: nat, actor: string, id: string)

  function KeyOf(op: TextOperation): SortKey {
    SortKey(op.counter, op.actor, op.operationId)
  }

  /** Code-point order of strings. */
  predicate StringLess(a: string, b: string) {
    if b == [] then false
    else if a == [] then true
    else a[0] < b[0] || (a[0] == b[0] && StringLess(a[1..], b[1..]))
  }

  /** Tuple order on (counter, actor, identifier). */
  predicate KeyLess(a: SortKey, b: SortKey) {
    || a.counter < b.counter
    || (a.counter == b.counter && StringLess(a.actor, b.actor))
    || (a.counter == b.counter && a.actor == b.actor && StringLess(a.id, b.id))
  }

  lemma {:induction false} StringTrichotomy(a: string, b: string)
    ensures StringLess(a, b) ==> !StringLess(b, a) && a != b
    ensures StringLess(a, b) || StringLess(b, a) || a == b
  {
    if a != [] && b != [] {
      StringTrichotomy(a[1..], b[1..]);
      assert a == [a[0]] + a[1..] && b == [b[0]] + b[1..];
    }
  }

  lemma {:induction false} StringTransitive(a: string, b: string, c: string)
    requires StringLess(a, b) && StringLess(b, c)
    ensures StringLess(a, c)
  {
    if a != [] && a[0] == b[0] == c[0] {
      StringTransitive(a[1..], b[1..], c[1..]);
    }
  }

  lemma KeyTrichotomy(a: SortKey, b: SortKey)
    ensures KeyLess(a, b) ==> !KeyLess(b, a) && a != b
    ensures KeyLess(a, b) || KeyLess(b, a) || a == b
  {
    StringTrichotomy(a.actor, b.actor);
    StringTrichotomy(a.id, b.id);
  }

  lemma KeyTransitive(a: SortKey, b: SortKey, c: SortKey)
    requires KeyLess(a, b) && KeyLess(b, c)
    ensures KeyLess(a, c)
  {
    if StringLess(a.actor, b.actor) && StringLess(b.actor, c.actor) {
      StringTransitive(a.actor, b.actor, c.actor);
    }
    if StringLess(a.id, b.id) && StringLess(b.id, c.id) {
      StringTransitive(a.id, b.id, c.id);
    }
  }

  // ----- Lexicographic order of key sequences -----

  /** Dictionary order of key sequences: a proper prefix comes first. */
  ghost predicate LexLess(p: seq<SortKey>, q: seq<SortKey>) {
    if q == [] then false
    else if p == [] then true
    else KeyLess(p[0], q[0]) || (p[0] == q[0] && LexLess(p[1..], q[1..]))
  }

  lemma {:induction false} LexTrichotomy(p: seq<SortKey>, q: seq<SortKey>)
    ensures LexLess(p, q) ==> !LexLess(q, p) && p != q
    ensures LexLess(p, q) || LexLess(q, p) || p == q
  {
    if p != [] && q != [] {
      KeyTrichotomy(p[0], q[0]);
      LexTrichotomy(p[1..], q[1..]);
      assert p == [p[0]] + p[1..] && q == [q[0]] + q[1..];
    }
  }

  lemma {:induction false} LexTransitive(p: seq<SortKey>, q: seq<SortKey>, r: seq<SortKey>)
    requires LexLess(p, q) && LexLess(q, r)
    ensures LexLess(p, r)
  {
    if p != [] {
      KeyTrichotomy(p[0], q[0]);
      KeyTrichotomy(q[0], r[0]);
      if p[0] == q[0] == r[0] {
        LexTransitive(p[1..], q[1..], r[1..]);
      } else if p[0] != q[0] && q[0] != r[0] {
        KeyTransitive(p[0], q[0], r[0]);
      }
    }
  }

  /** Appending keys to p keeps p before q, unless p is a prefix of q. */
  lemma {:induction false} LexExtendLeft(p: seq<SortKey>, q: seq<SortKey>, tail: seq<SortKey>)
    requires LexLess(p, q) && !(p <= q)
    ensures LexLess(p + tail, q)
  {
    assert p != [];
    KeyTrichotomy(p[0], q[0]);
    if p[0] == q[0] {
      assert (p + tail)[1..] == p[1..] + tail;
      assert p == [p[0]] + p[1..] && q == [q[0]] + q[1..];
      assert p <= q <==> p[1..] <= q[1..];
      LexExtendLeft(p[1..], q[1..], tail);
    }
  }

  /** The sequences between p and p + [k] are exactly those that run through a smaller child key. */
  lemma {:induction false} LexBetween(p: seq<SortKey>, q: seq<SortKey>, k: SortKey)
    ensures LexLess(p, q) && LexLess(q, p + [k]) <==>
            p < q && KeyLess(q[|p|], k)
  {
    if p == [] {
      assert p + [k] == [k];
      if q != [] { assert q[|p|+1..] == q[1..]; }
    } else if q != [] {
      assert (p + [k])[1..] == p[1..] + [k];
      KeyTrichotomy(p[0], q[0]);
      if p[0] == q[0] {
        LexBetween(p[1..], q[1..], k);
        assert q == [q[0]] + q[1..] && p == [p[0]] + p[1..];
        assert p < q <==> p[1..] < q[1..];
        if p < q {
          assert q[|p|] == q[1..][|p|-1];
          assert q[|p|+1..] == q[1..][|p|..];
        }
      } else {
        assert !(p < q);
      }
    }
  }
}
