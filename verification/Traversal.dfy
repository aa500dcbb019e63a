/** Recursive walks over a forest whose ranks fall from parent to child. */
module Traversal {
  import opened Sequences

  type KidsOf = string -> seq<string>
  type RankOf = string -> nat

  ghost predicate Descends(kids: KidsOf, rank: RankOf) {
    forall id, kid :: kid in kids(id) ==> rank(kid) < rank(id)
  }

  ghost function RankBound(rank: RankOf, roots: seq<string>): (b: nat)
    ensures forall r <- roots :: rank(r) < b
  {
    if roots == [] then 0
    else
      var b := RankBound(rank, roots[1..]);
      if rank(roots[0]) < b then b else rank(roots[0]) + 1
  }

  lemma {:induction false} RankBoundBelow(rank: RankOf, roots: seq<string>, b: nat)
    requires forall r <- roots :: rank(r) < b
    ensures RankBound(rank, roots) <= b
  {
    if roots != [] { RankBoundBelow(rank, roots[1..], b); }
  }

  /** Each root, then its subtree, then the remaining roots. */
  ghost function Visit(kids: KidsOf, rank: RankOf, roots: seq<string>): seq<string>
    requires Descends(kids, rank)
    decreases RankBound(rank, roots), |roots|
  {
    if roots == [] then [] else
    RankBoundBelow(rank, kids(roots[0]), rank(roots[0]));
    [roots[0]] + Visit(kids, rank, kids(roots[0])) + Visit(kids, rank, roots[1..])
  }

  lemma {:induction false} VisitConcat(kids: KidsOf, rank: RankOf, a: seq<string>, b: seq<string>)
    requires Descends(kids, rank)
    ensures Visit(kids, rank, a + b) == Visit(kids, rank, a) + Visit(kids, rank, b)
    decreases |a|
  {
    if a == [] {
      assert a + b == b;
    } else {
      assert (a + b)[1..] == a[1..] + b;
      VisitConcat(kids, rank, a[1..], b);
    }
  }

  lemma VisitRoot(kids: KidsOf, rank: RankOf, c: string, rest: seq<string>)
    requires Descends(kids, rank)
    ensures Visit(kids, rank, [c] + rest) == [c] + Visit(kids, rank, kids(c) + rest)
  {
    VisitConcat(kids, rank, kids(c), rest);
    var all := [c] + rest;
    assert all[0] == c && all[1..] == rest;
    Assoc([c], Visit(kids, rank, kids(c)), Visit(kids, rank, rest));
  }

}
