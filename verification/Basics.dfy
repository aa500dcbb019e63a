/** Small definitions that several modules share. */
module Basics {

  datatype Option<+T> = None | Some(value: T)

  /** The number between lo and hi that is nearest to x. */
  function Clamp(x: int, lo: int, hi: int): (r: int)
    ensures lo <= hi ==> lo <= r <= hi && (r < x ==> r == hi) && (x < r ==> r == lo)
  {
    if x < lo then lo else if x > hi then hi else x
  }

  function Min(a: real, b: real): (r: real)
    ensures (r == a || r == b) && r <= a && r <= b
  {
    if a <= b then a else b
  }

  function Max(a: real, b: real): (r: real)
    ensures (r == a || r == b) && r >= a && r >= b
  {
    if a >= b then a else b
  }

  lemma {:induction false} MaxOf(s: set<nat>) returns (m: nat)
    requires s != {}
    ensures m in s && forall u <- s :: u <= m
  {
    var x :| x in s;
    if s == {x} {
      m := x;
    } else {
      m := MaxOf(s - {x});
      assert s == {x} + (s - {x});
      if m < x { m := x; }
    }
  }

  /** A number that is not in use. */
  lemma Unused(used: set<nat>) returns (n: nat)
    ensures n !in used
  {
    if used == {} { return 0; }
    n := MaxOf(used);
    n := n + 1;
  }
}
