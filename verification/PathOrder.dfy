/** Lists of identifiers sorted by an assigned key sequence. */
module PathOrder {
  import opened TextOperations

  type PathOf = string -> seq<SortKey>

  ghost predicate Precedes(path: PathOf, x: string, y: string) {
    LexLess(path(x), path(y))
  }

  ghost predicate Sorted(path: PathOf, o: seq<string>) {
    forall i, j :: 0 <= i < j < |o| ==> Precedes(path, o[i], o[j])
  }

  ghost predicate Lists(o: seq<string>, s: set<string>) {
    forall id :: id in o <==> id in s
  }

  /** Different identifiers of s have different paths. */
  ghost predicate Injective(path: PathOf, s: set<string>) {
    forall x, y :: x in s && y in s && path(x) == path(y) ==> x == y
  }

  lemma PrecedesTrichotomy(path: PathOf, x: string, y: string)
    ensures Precedes(path, x, y) ==> !Precedes(path, y, x) && x != y
    ensures Precedes(path, x, y) || Precedes(path, y, x) || path(x) == path(y)
  {
    LexTrichotomy(path(x), path(y));
  }

  lemma PrecedesTransitive(path: PathOf, x: string, y: string, z: string)
    requires Precedes(path, x, y) && Precedes(path, y, z)
    ensures Precedes(path, x, z)
  {
    LexTransitive(path(x), path(y), path(z));
  }

  lemma SortedDistinct(path: PathOf, o: seq<string>)
    requires Sorted(path, o)
    ensures forall i, j :: 0 <= i < j < |o| ==> o[i] != o[j]
  {
    forall i, j | 0 <= i < j < |o| ensures o[i] != o[j] {
      PrecedesTrichotomy(path, o[i], o[j]);
    }
  }

  lemma {:induction false} SortedUnique(path: PathOf, a: seq<string>, b: seq<string>)
    requires Sorted(path, a) && Sorted(path, b)
    requires forall id :: id in a <==> id in b
    ensures a == b
  {
    if a == [] {
      assert forall i :: 0 <= i < |b| ==> b[i] in b;
    } else {
      assert a[0] in b && b != [] && b[0] in a;
      PrecedesTrichotomy(path, a[0], b[0]);
      SortedDistinct(path, a);
      SortedDistinct(path, b);
      forall id ensures id in a[1..] <==> id in b[1..] {
        assert id in a <==> id == a[0] || id in a[1..];
        assert id in b <==> id == b[0] || id in b[1..];
      }
      SortedUnique(path, a[1..], b[1..]);
      assert a == [a[0]] + a[1..] && b == [b[0]] + b[1..];
    }
  }

  lemma SpliceSorted(path: PathOf, left: seq<string>, mid: seq<string>, right: seq<string>)
    requires Sorted(path, left + right) && Sorted(path, mid)
    requires forall i, m :: 0 <= i < |left| && 0 <= m < |mid| ==> Precedes(path, left[i], mid[m])
    requires forall i, m :: 0 <= i < |right| && 0 <= m < |mid| ==> Precedes(path, mid[m], right[i])
    ensures Sorted(path, left + mid + right)
  {
    var o, o', a, b := left + right, left + mid + right, |left|, |left| + |mid|;
    forall i, j | 0 <= i < j < |o'| ensures Precedes(path, o'[i], o'[j]) {
      if (i < a || b <= i) && (j < a || b <= j) {
        var i', j' := if i < a then i else i - |mid|, if j < a then j else j - |mid|;
        assert o[i'] == o'[i] && o[j'] == o'[j];
      } else if a <= i < b && a <= j < b {
        assert o'[i] == mid[i - a] && o'[j] == mid[j - a];
      } else if i < a {
        assert o'[i] == left[i] && o'[j] == mid[j - a];
      } else {
        assert o'[i] == mid[i - a] && o'[j] == right[j - b];
      }
    }
  }

  /** A new identifier has exactly one place in a sorted list. */
  lemma {:induction false} PlaceIn(path: PathOf, o: seq<string>, x: string) returns (q: nat)
    requires Sorted(path, o)
    requires forall i :: 0 <= i < |o| ==> path(o[i]) != path(x)
    ensures q <= |o| && Sorted(path, o[..q] + [x] + o[q..])
    ensures forall i :: 0 <= i < |o| ==> (i < q <==> Precedes(path, o[i], x))
  {
    q := 0;
    while q < |o| && Precedes(path, o[q], x)
      invariant q <= |o|
      invariant forall i :: 0 <= i < q ==> Precedes(path, o[i], x)
    {
      q := q + 1;
    }
    forall i | q <= i < |o| ensures Precedes(path, x, o[i]) && !Precedes(path, o[i], x) {
      PrecedesTrichotomy(path, x, o[q]);
      if q < i { PrecedesTransitive(path, x, o[q], o[i]); }
      PrecedesTrichotomy(path, x, o[i]);
    }
    assert o == o[..q] + o[q..];
    SpliceSorted(path, o[..q], [x], o[q..]);
  }

  lemma {:induction false} SortExists(path: PathOf, s: set<string>) returns (o: seq<string>)
    requires Injective(path, s)
    ensures Sorted(path, o) && Lists(o, s)
  {
    if s == {} {
      o := [];
    } else {
      var x :| x in s;
      var rest := SortExists(path, s - {x});
      assert forall i :: 0 <= i < |rest| ==> rest[i] in rest;
      var q := PlaceIn(path, rest, x);
      o := rest[..q] + [x] + rest[q..];
      forall id ensures id in o <==> id in s {
        assert rest == rest[..q] + rest[q..];
        assert id in rest <==> id in s - {x};
      }
    }
  }
}
