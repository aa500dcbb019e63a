/** The admission gate for transfers: a condition variable with priorities, exclusive requests and
    timeouts, as steps of a state machine. */
module TransferGate {
  import opened Basics

  /** A token is the number of its arrival. */
  type Token = nat

  datatype Waiter = Waiter(token: Token, priority: nat, count: nat)

  /** waiters is the queue, held the slots each transfer occupies; asleep are the waiters inside
      wait(), every other waiter has been notified and will look again. */
  datatype Gate = Gate(
    maxActive: nat, available: nat, waiters: seq<Waiter>, held: map<Token, nat>, asleep: set<Token>, arrivals: nat)

  /** What one thread does while it holds the lock. */
  datatype Event =
    | Arrive(exclusive: bool, priority: nat, expired: bool)
    | Wake(who: Token, expired: bool)     // notified, timed out or woken for no reason
    | Release(holder: Token)

  /** No other waiter has a better priority, no earlier one an equal priority. */
  ghost predicate IsFirst(ws: seq<Waiter>, i: nat) {
    i < |ws| && forall j :: 0 <= j < |ws| ==>
        ws[i].priority <= ws[j].priority && (j < i ==> ws[i].priority < ws[j].priority)
  }

  /** sorted(waiters, key=priority)[0]: the earliest of the best-priority waiters. */
  function First(ws: seq<Waiter>): (i: nat)
    requires ws != []
    ensures IsFirst(ws, i)
  {
    if |ws| == 1 then 0
    else
      var j := First(ws[1..]) + 1;
      if ws[0].priority <= ws[j].priority then 0 else j
  }

  function RemoveAt(ws: seq<Waiter>, i: nat): seq<Waiter>
    requires i < |ws|
  {
    ws[..i] + ws[i+1..]
  }

  /** Drops the waiters with this token. */
  function Filter(ws: seq<Waiter>, t: Token): (r: seq<Waiter>)
    ensures forall w :: w in r <==> w in ws && w.token != t
  {
    if ws == [] then []
    else if ws[0].token == t then Filter(ws[1..], t)
    else [ws[0]] + Filter(ws[1..], t)
  }

  predicate Admits(g: Gate, t: Token) {
    g.waiters != [] && var w := g.waiters[First(g.waiters)]; w.token == t && g.available >= w.count
  }

  /** The loop body of a waiting thread: enter, give up, or sleep. */
  function Look(g: Gate, t: Token, expired: bool): Gate {
    if Admits(g, t) then
      var i := First(g.waiters);
      g.(waiters := RemoveAt(g.waiters, i), available := g.available - g.waiters[i].count,
         held := g.held[t := g.waiters[i].count], asleep := g.asleep - {t})
    else if expired then g.(waiters := Filter(g.waiters, t), asleep := {})
    else g.(asleep := g.asleep + {t})
  }

  predicate Enabled(g: Gate, e: Event) {
    match e
    case Arrive(_, _, _) => true
    case Wake(who, _) => exists w <- g.waiters :: w.token == who
    case Release(holder) => holder in g.held
  }

  function Join(g: Gate, exclusive: bool, priority: nat): Gate {
    g.(waiters := g.waiters + [Waiter(g.arrivals, priority, if exclusive then g.maxActive else 1)],
        arrivals := g.arrivals + 1)
  }

  function Step(g: Gate, e: Event): Gate
    requires Enabled(g, e)
  {
    match e
    case Arrive(exclusive, priority, expired) => Look(Join(g, exclusive, priority), g.arrivals, expired)
    case Wake(who, expired) => Look(g, who, expired)
    case Release(holder) => g.(available := g.available + g.held[holder], held := g.held - {holder}, asleep := {})
  }

  function Open(maxActive: nat): Gate {
    Gate(maxActive, maxActive, [], map[], {}, 0)
  }

  // ----- Slots -----

  function Sum(held: map<Token, nat>): nat
    decreases |held|
  {
    if held == map[] then 0
    else
      var t := SomeKey(held);
      held[t] + Sum(held - {t})
  }

  /** The largest token of a nonempty map. */
  function SomeKey(held: map<Token, nat>): (t: Token)
    requires held != map[]
    ensures t in held
  {
    KeyExists(held);
    var t :| t in held && forall u <- held :: u <= t;
    t
  }

  lemma KeyExists(held: map<Token, nat>)
    requires held != map[]
    ensures exists t :: t in held && forall u <- held :: u <= t
  {
    var t := MaxOf(held.Keys);
  }

  lemma {:induction false} SumWithout(held: map<Token, nat>, t: Token)
    requires t in held
    ensures Sum(held) == held[t] + Sum(held - {t})
    decreases |held|
  {
    var u := SomeKey(held);
    if u != t {
      SumWithout(held - {u}, t);
      SumWithout(held - {t}, u);
      assert held - {u} - {t} == held - {t} - {u};
    }
  }

  lemma SumWith(held: map<Token, nat>, t: Token, n: nat)
    requires t !in held
    ensures Sum(held[t := n]) == Sum(held) + n
  {
    SumWithout(held[t := n], t);
    assert held[t := n] - {t} == held;
  }

  // ----- What every interleaving keeps -----

  ghost predicate Ordered(ws: seq<Waiter>) {
    forall i, j :: 0 <= i < j < |ws| ==> ws[i].token < ws[j].token
  }

  /** Slot conservation, FIFO order of the queue, and no deadlock: while nobody holds a slot, the
      first in line is not asleep. */
  ghost predicate Inv(g: Gate) {
    && 1 <= g.maxActive
    && g.available + Sum(g.held) == g.maxActive
    && Ordered(g.waiters)
    && (forall w <- g.waiters :: w.token < g.arrivals && 1 <= w.count <= g.maxActive && w.token !in g.held)
    && (forall t <- g.held :: t < g.arrivals && 1 <= g.held[t] <= g.maxActive)
    && (g.held == map[] && g.waiters != [] ==> g.waiters[First(g.waiters)].token !in g.asleep)
  }

  lemma RemovedMembers(ws: seq<Waiter>, i: nat)
    requires i < |ws| && Ordered(ws)
    ensures Ordered(RemoveAt(ws, i))
    ensures forall w :: w in RemoveAt(ws, i) <==> w in ws && w != ws[i]
    ensures forall w <- RemoveAt(ws, i) :: w.token != ws[i].token
  {
    var r := RemoveAt(ws, i);
    assert forall j :: 0 <= j < |r| ==> r[j] == if j < i then ws[j] else ws[j+1];
    forall w ensures w in r <==> w in ws && w != ws[i] {
      if w in ws && w != ws[i] {
        var j :| 0 <= j < |ws| && ws[j] == w;
        assert r[if j < i then j else j - 1] == w;
      }
    }
  }

  lemma OrderedCons(w: Waiter, rest: seq<Waiter>)
    requires Ordered(rest) && forall i :: 0 <= i < |rest| ==> w.token < rest[i].token
    ensures Ordered([w] + rest)
  {
    var r := [w] + rest;
    forall i, j | 0 <= i < j < |r| ensures r[i].token < r[j].token {
      assert r[j] == rest[j-1];
      if i > 0 { assert r[i] == rest[i-1]; }
    }
  }

  lemma {:induction false} FilterOrdered(ws: seq<Waiter>, t: Token)
    requires Ordered(ws)
    ensures Ordered(Filter(ws, t))
  {
    if ws != [] {
      FilterOrdered(ws[1..], t);
      var rest := Filter(ws[1..], t);
      if ws[0].token != t {
        forall i | 0 <= i < |rest| ensures ws[0].token < rest[i].token {
          assert rest[i] in rest && rest[i] in ws[1..];
        }
        OrderedCons(ws[0], rest);
      }
    }
  }

  lemma SumPositive(held: map<Token, nat>)
    requires held != map[] && forall t <- held :: 1 <= held[t]
    ensures Sum(held) >= 1
  {
    SumWithout(held, SomeKey(held));
  }

  /** A look keeps the invariant; the looking thread itself may be first and awake. */
  lemma LookKeeps(g: Gate, t: Token, expired: bool)
    requires Inv(g) && exists w <- g.waiters :: w.token == t
    ensures Inv(Look(g, t, expired))
  {
    var ws, i := g.waiters, First(g.waiters);
    if Admits(g, t) {
      RemovedMembers(ws, i);
      assert ws[i] in ws;
      SumWith(g.held, t, ws[i].count);
    } else if expired {
      FilterOrdered(ws, t);
    } else {
      assert ws[i] in ws;
    }
  }

  lemma OrderedSnoc(ws: seq<Waiter>, w: Waiter)
    requires Ordered(ws) && forall i :: 0 <= i < |ws| ==> ws[i].token < w.token
    ensures Ordered(ws + [w])
  {
  }

  lemma JoinKeeps(g: Gate, exclusive: bool, priority: nat)
    requires Inv(g) && (forall t <- g.asleep :: t < g.arrivals)
    ensures Inv(Join(g, exclusive, priority))
    ensures exists w <- Join(g, exclusive, priority).waiters :: w.token == g.arrivals
  {
    var w := Waiter(g.arrivals, priority, if exclusive then g.maxActive else 1);
    assert w in Join(g, exclusive, priority).waiters;
    assert forall i :: 0 <= i < |g.waiters| ==> g.waiters[i] in g.waiters;
    OrderedSnoc(g.waiters, w);
    SameFirst(g.waiters, w);
  }

  lemma FirstUnique(ws: seq<Waiter>, i: nat, j: nat)
    requires IsFirst(ws, i) && IsFirst(ws, j)
    ensures i == j
  {
    assert ws[i].priority == ws[j].priority;
  }

  /** Unless it is the newcomer, the first in line stays the same. */
  lemma SameFirst(ws: seq<Waiter>, w: Waiter)
    ensures First(ws + [w]) < |ws| ==> First(ws) == First(ws + [w])
    ensures First(ws + [w]) >= |ws| ==> (ws + [w])[First(ws + [w])] == w
  {
    var j, all := First(ws + [w]), ws + [w];
    if j < |ws| {
      assert IsFirst(ws, j) by {
        forall k | 0 <= k < |ws|
          ensures ws[j].priority <= ws[k].priority && (k < j ==> ws[j].priority < ws[k].priority) {
          assert all[k] == ws[k] && all[j] == ws[j];
        }
      }
      FirstUnique(ws, First(ws), j);
    }
  }

  ghost predicate Sound(g: Gate) {
    Inv(g) && forall t <- g.asleep :: t < g.arrivals
  }

  lemma StepKeeps(g: Gate, e: Event)
    requires Sound(g) && Enabled(g, e)
    ensures Sound(Step(g, e)) && Step(g, e).maxActive == g.maxActive
  {
    match e
    case Arrive(exclusive, priority, expired) => ArriveKeeps(g, exclusive, priority, expired);
    case Wake(who, expired) => WakeKeeps(g, who, expired);
    case Release(holder) => ReleaseKeeps(g, holder);
  }

  lemma ArriveKeeps(g: Gate, exclusive: bool, priority: nat, expired: bool)
    requires Sound(g)
    ensures Sound(Look(Join(g, exclusive, priority), g.arrivals, expired))
  {
    JoinKeeps(g, exclusive, priority);
    LookKeeps(Join(g, exclusive, priority), g.arrivals, expired);
  }

  lemma LookSound(g: Gate, t: Token, expired: bool)
    requires Sound(g) && exists w <- g.waiters :: w.token == t
    ensures Sound(Look(g, t, expired))
  {
    LookKeeps(g, t, expired);
  }

  lemma WakeKeeps(g: Gate, who: Token, expired: bool)
    requires Sound(g) && Enabled(g, Event.Wake(who, expired))
    ensures Sound(Look(g, who, expired))
  {
    var w :| w in g.waiters && w.token == who;
    LookKeeps(g, who, expired);
  }

  lemma ReleaseKeeps(g: Gate, holder: Token)
    requires Sound(g) && holder in g.held
    ensures Sound(g.(available := g.available + g.held[holder], held := g.held - {holder}, asleep := {}))
  {
    SumWithout(g.held, holder);
  }

  // ----- Interleavings -----

  ghost predicate Legal(g: Gate, events: seq<Event>)
    decreases |events|
  {
    events != [] ==> Enabled(g, events[0]) && Legal(Step(g, events[0]), events[1..])
  }

  function After(g: Gate, events: seq<Event>): Gate
    requires Legal(g, events)
    decreases |events|
  {
    if events == [] then g else After(Step(g, events[0]), events[1..])
  }

  lemma {:induction false} RunKeeps(g: Gate, events: seq<Event>)
    requires Sound(g) && Legal(g, events)
    ensures Sound(After(g, events)) && After(g, events).maxActive == g.maxActive
    decreases |events|
  {
    if events != [] {
      StepKeeps(g, events[0]);
      RunKeeps(Step(g, events[0]), events[1..]);
    }
  }

  lemma OpenIsSound(maxActive: nat)
    requires maxActive >= 1
    ensures Sound(Open(maxActive))
  {
  }

  ghost predicate FirstSleeps(g: Gate) {
    g.waiters != [] && g.waiters[First(g.waiters)].token in g.asleep
  }

  /** A first-in-line waiter that sleeps although enough slots are free. */
  ghost predicate SleepsBesideFreeSlots(g: Gate) {
    FirstSleeps(g) && g.available >= g.waiters[First(g.waiters)].count
  }

  /** Slots are conserved, an exclusive transfer is alone, a sleeping first-in-line waiter has a
      transfer to be woken by, and with one slot it has nothing to wake up for. */
  ghost predicate Orderly(g: Gate) {
    && g.available + Sum(g.held) == g.maxActive
    && (forall t <- g.held :: g.held[t] == g.maxActive ==> g.held.Keys == {t})
    && (FirstSleeps(g) ==> g.held != map[])
    && (FirstSleeps(g) && g.maxActive == 1 ==> g.available == 0)
    && (g.maxActive == 1 ==> !SleepsBesideFreeSlots(g))
  }

  lemma SoundIsOrderly(g: Gate)
    requires Sound(g)
    ensures Orderly(g)
  {
    forall t <- g.held | g.held[t] == g.maxActive ensures g.held.Keys == {t} {
      SumWithout(g.held, t);
      var others := g.held - {t};
      if others != map[] { SumPositive(others); }
      assert g.held.Keys == {t} + others.Keys;
    }
    if g.held != map[] { SumPositive(g.held); }
    if g.waiters != [] { assert g.waiters[First(g.waiters)] in g.waiters; }
  }

  lemma EveryInterleaving(maxActive: nat, events: seq<Event>)
    requires maxActive >= 1 && Legal(Open(maxActive), events)
    ensures Orderly(After(Open(maxActive), events)) && After(Open(maxActive), events).maxActive == maxActive
  {
    OpenIsSound(maxActive);
    RunKeeps(Open(maxActive), events);
    SoundIsOrderly(After(Open(maxActive), events));
  }

  /** Admission respects the queue: everyone who came earlier and still waits has a worse priority. */
  lemma AdmissionIsFair(g: Gate, t: Token, expired: bool)
    requires Sound(g) && t !in g.held && t in Look(g, t, expired).held
    ensures exists mine <- g.waiters :: mine.token == t && mine.count <= g.available &&
              forall w <- Look(g, t, expired).waiters :: mine.priority <= w.priority
                  && (w.token < t ==> mine.priority < w.priority)
  {
    var ws, i := g.waiters, First(g.waiters);
    RemovedMembers(ws, i);
    assert ws[i] in ws;
    forall w <- RemoveAt(ws, i) ensures ws[i].priority <= w.priority && (w.token < t ==> ws[i].priority < w.priority) {
      var j :| 0 <= j < |ws| && ws[j] == w;
    }
  }

  /** Giving up takes away the own token only, and wakes everybody. */
  lemma TimeoutIsLocal(g: Gate, t: Token)
    requires Sound(g) && !Admits(g, t)
    ensures var g' := Look(g, t, true);
            && (forall w :: w in g'.waiters <==> w in g.waiters && w.token != t)
            && g'.held == g.held && g'.available == g.available && g'.asleep == {}
  {
  }

  // ----- The wakeup that is not sent -----

  /** An exclusive transfer ends while two requests wait; the second looks before the first. */
  const LOST_WAKEUP: seq<Event> := [
    Event.Arrive(true, 1, false), Event.Arrive(false, 1, false), Event.Arrive(false, 1, false),
    Event.Release(0), Wake(2, false), Wake(1, false)]

  lemma Prepend(g: Gate, e: Event, g': Gate, rest: seq<Event>, end: Gate)
    requires Enabled(g, e) && Step(g, e) == g' && Legal(g', rest) && After(g', rest) == end
    ensures Legal(g, [e] + rest) && After(g, [e] + rest) == end
  {
    assert ([e] + rest)[0] == e && ([e] + rest)[1..] == rest;
  }

  lemma FirstOfEqual(a: Waiter, b: Waiter)
    requires a.priority == b.priority
    ensures First([a, b]) == 0
  {
    FirstUnique([a, b], 0, First([a, b]));
  }

  /** The transfer ends, the second waiter looks, then the first one. */
  lemma LastThree(maxActive: nat)
    requires maxActive >= 2
    ensures var a, b := Waiter(1, 1, 1), Waiter(2, 1, 1);
            var g := Gate(maxActive, 0, [a, b], map[0 := maxActive], {1, 2}, 3);
            var es := [Event.Release(0)] + ([Wake(2, false)] + ([Wake(1, false)] + []));
            Legal(g, es) && After(g, es) == Gate(maxActive, maxActive - 1, [b], map[1 := 1], {2}, 3)
  {
    var a, b := Waiter(1, 1, 1), Waiter(2, 1, 1);
    var g3 := Gate(maxActive, 0, [a, b], map[0 := maxActive], {1, 2}, 3);
    var g4 := Gate(maxActive, maxActive, [a, b], map[], {}, 3);
    var g5 := Gate(maxActive, maxActive, [a, b], map[], {2}, 3);
    var g6 := Gate(maxActive, maxActive - 1, [b], map[1 := 1], {2}, 3);
    FirstOfEqual(a, b);
    assert a in [a, b] && b in [a, b];
    assert Step(g5, Wake(1, false)) == g6 by { assert RemoveAt([a, b], 0) == [b]; }
    Prepend(g5, Wake(1, false), g6, [], g6);
    Prepend(g4, Wake(2, false), g5, [Wake(1, false)] + [], g6);
    assert Step(g3, Event.Release(0)) == g4 by { assert map[0 := maxActive] - {0} == map[]; }
    Prepend(g3, Event.Release(0), g4, [Wake(2, false)] + ([Wake(1, false)] + []), g6);
  }

  /** An exclusive transfer is admitted and two requests line up behind it. */
  lemma FirstThree(maxActive: nat, rest: seq<Event>, end: Gate)
    requires maxActive >= 2
    requires var g := Gate(maxActive, 0, [Waiter(1, 1, 1), Waiter(2, 1, 1)], map[0 := maxActive], {1, 2}, 3);
             Legal(g, rest) && After(g, rest) == end
    ensures var es := [Event.Arrive(true, 1, false)]
            + ([Event.Arrive(false, 1, false)] + ([Event.Arrive(false, 1, false)] + rest));
            Legal(Open(maxActive), es) && After(Open(maxActive), es) == end
  {
    var g1 := Gate(maxActive, 0, [], map[0 := maxActive], {}, 1);
    var g2 := Gate(maxActive, 0, [Waiter(1, 1, 1)], map[0 := maxActive], {1}, 2);
    var g3 := Gate(maxActive, 0, [Waiter(1, 1, 1), Waiter(2, 1, 1)], map[0 := maxActive], {1, 2}, 3);
    AllTaken(maxActive);
    LineUp(maxActive);
    Prepend(g2, Event.Arrive(false, 1, false), g3, rest, end);
    Prepend(g1, Event.Arrive(false, 1, false), g2, [Event.Arrive(false, 1, false)] + rest, end);
    Prepend(Open(maxActive), Event.Arrive(true, 1, false), g1,
        [Event.Arrive(false, 1, false)] + ([Event.Arrive(false, 1, false)] + rest), end);
  }

  lemma AllTaken(maxActive: nat)
    requires maxActive >= 2
    ensures Step(Open(maxActive), Event.Arrive(true, 1, false)) == Gate(maxActive, 0, [], map[0 := maxActive], {}, 1)
  {
    assert RemoveAt([Waiter(0, 1, maxActive)], 0) == [];
  }

  lemma LineUp(maxActive: nat)
    requires maxActive >= 2
    ensures Step(Gate(maxActive, 0, [], map[0 := maxActive], {}, 1), Event.Arrive(false, 1, false)) ==
            Gate(maxActive, 0, [Waiter(1, 1, 1)], map[0 := maxActive], {1}, 2)
    ensures Step(Gate(maxActive, 0, [Waiter(1, 1, 1)], map[0 := maxActive], {1}, 2), Event.Arrive(false, 1, false)) ==
            Gate(maxActive, 0, [Waiter(1, 1, 1), Waiter(2, 1, 1)], map[0 := maxActive], {1, 2}, 3)
  {
    FirstOfEqual(Waiter(1, 1, 1), Waiter(2, 1, 1));
  }

  ghost predicate Oversleeps(maxActive: nat, events: seq<Event>) {
    Legal(Open(maxActive), events) && SleepsBesideFreeSlots(After(Open(maxActive), events))
  }

  lemma LostWakeup(maxActive: nat)
    requires maxActive >= 2
    ensures Oversleeps(maxActive, LOST_WAKEUP)
  {
    var rest := [Event.Release(0)] + ([Wake(2, false)] + ([Wake(1, false)] + []));
    var end := Gate(maxActive, maxActive - 1, [Waiter(2, 1, 1)], map[1 := 1], {2}, 3);
    LastThree(maxActive);
    FirstThree(maxActive, rest, end);
    assert LOST_WAKEUP == [Event.Arrive(true, 1, false)]
        + ([Event.Arrive(false, 1, false)] + ([Event.Arrive(false, 1, false)] + rest));
  }

  /** Some interleaving leaves the first in line asleep beside free slots exactly when the gate
      admits more than one transfer at a time. */
  lemma OversleepingNeedsTwoSlots(maxActive: nat)
    requires maxActive >= 1
    ensures (exists events :: Oversleeps(maxActive, events)) <==> maxActive >= 2
  {
    if maxActive == 1 {
      forall events ensures !Oversleeps(maxActive, events) { OneSlotIsPrompt(events); }
    } else {
      LostWakeup(maxActive);
    }
  }

  lemma OneSlotIsPrompt(events: seq<Event>)
    ensures !Oversleeps(1, events)
  {
    if Legal(Open(1), events) { EveryInterleaving(1, events); }
  }

  // ----- The controller -----

  datatype Outcome = Admitted | TimedOut | Sleeping

  lemma OneTicket(ws: seq<Waiter>, token: Token, count: nat)
    requires Ordered(ws) && exists w <- ws :: w.token == token && w.count == count
    ensures forall w <- ws :: w.token == token ==> w.count == count
  {
    var v :| v in ws && v.token == token && v.count == count;
    var i :| 0 <= i < |ws| && ws[i] == v;
    forall w <- ws | w.token == token ensures w.count == count {
      var j :| 0 <= j < |ws| && ws[j] == w;
      assert i == j;
    }
  }

  ghost predicate HasTicket(g: Gate, token: Token, count: nat) {
    exists w <- g.waiters :: w.token == token && w.count == count
  }

  /** The first in line has the token exactly when the thread may look for slots of its own. */
  lemma Sees(g: Gate, token: Token, count: nat)
    requires Sound(g) && HasTicket(g, token, count)
    ensures g.waiters != []
    ensures Admits(g, token) <==> g.waiters[First(g.waiters)].token == token && g.available >= count
    ensures Admits(g, token) ==> g.waiters[First(g.waiters)].count == count
  {
    OneTicket(g.waiters, token, count);
    assert g.waiters[First(g.waiters)] in g.waiters;
  }

  lemma Looked(g: Gate, token: Token, count: nat, expired: bool, g': Gate)
    requires Sound(g) && HasTicket(g, token, count)
    requires g'.maxActive == g.maxActive && g'.arrivals == g.arrivals
    requires if Admits(g, token) then
               && g'.waiters == RemoveAt(g.waiters, First(g.waiters)) && g'.available == g.available - count
               && g'.held == g.held[token := count] && g'.asleep == g.asleep - {token}
             else
               && g'.available == g.available && g'.held == g.held
               && g'.waiters == (if expired then Filter(g.waiters, token) else g.waiters)
               && g'.asleep == (if expired then {} else g.asleep + {token})
    ensures g' == Look(g, token, expired) && Sound(g')
  {
    Sees(g, token, count);
    LookSound(g, token, expired);
  }

  class AdmissionGate {
    const maxActive: nat
    var availableSlots: nat
    var waiters: seq<Waiter>
    var arrivals: nat
    ghost var held: map<Token, nat>
    ghost var asleep: set<Token>

    ghost function State(): Gate
      reads this
    {
      Gate(maxActive, availableSlots, waiters, held, asleep, arrivals)
    }

    ghost predicate Valid()
      reads this
    {
      Sound(State())
    }

    constructor (requested: int)
      ensures Valid() && State() == Open(if requested < 1 then 1 else requested)
    {
      maxActive := if requested < 1 then 1 else requested;
      availableSlots := if requested < 1 then 1 else requested;
      waiters := [];
      arrivals := 0;
      held := map[];
      asleep := {};
    }

    /** One turn of the waiting loop, under the lock. */
    method LookAgain(token: Token, count: nat, expired: bool) returns (outcome: Outcome)
      requires Valid() && HasTicket(State(), token, count)
      modifies this`availableSlots, this`waiters, this`held, this`asleep
      ensures Valid() && State() == Look(old(State()), token, expired)
      ensures outcome == if Admits(old(State()), token) then Admitted else if expired then TimedOut else Sleeping
    {
      ghost var g := State();
      Sees(g, token, count);
      var i := First(waiters);
      if waiters[i].token == token && availableSlots >= count {
        waiters := RemoveAt(waiters, i);
        availableSlots := availableSlots - count;
        held, asleep := held[token := count], asleep - {token};
        Looked(g, token, count, expired, State());
        return Admitted;
      }
      if expired {
        waiters := Filter(waiters, token);
        asleep := {};
        Looked(g, token, count, expired, State());
        return TimedOut;
      }
      asleep := asleep + {token};
      Looked(g, token, count, expired, State());
      return Sleeping;
    }

    /** A request arrives and looks for the first time. */
    method Arrive(exclusive: bool, priority: nat, expired: bool) returns (token: Token, outcome: Outcome)
      requires Valid()
      modifies this
      ensures Valid() && State() == Step(old(State()), Event.Arrive(exclusive, priority, expired))
      ensures token == old(arrivals)
      ensures outcome == Admitted <==> token in held
    {
      JoinKeeps(State(), exclusive, priority);
      token := arrivals;
      var count := if exclusive then maxActive else 1;
      waiters := waiters + [Waiter(token, priority, count)];
      arrivals := arrivals + 1;
      assert waiters[|waiters|-1] in waiters;
      assert State() == Join(old(State()), exclusive, priority) && token !in held;
      outcome := LookAgain(token, count, expired);
    }

    /** The end of a transfer gives its slots back and wakes everybody. */
    method Release(token: Token, count: nat)
      requires Valid() && token in held && held[token] == count
      modifies this`availableSlots, this`held, this`asleep
      ensures Valid() && State() == Step(old(State()), Event.Release(token))
    {
      StepKeeps(State(), Event.Release(token));
      availableSlots := availableSlots + count;
      held, asleep := held - {token}, {};
    }
  }
}
