/** What the admission gate makes of the requests as they were made: a waiting thread stands in line with
    the priority and the number of slots it asked for, and is admitted by them. */
module GateRequests {
  import Sequences
  import opened TransferGate

  /** The requests of a run, in the order in which they were made. */
  function Requests(events: seq<Event>): seq<Event> {
    if events == [] then [] else RequestIn(events[0]) + Requests(events[1..])
  }

  function RequestIn(e: Event): seq<Event> {
    if e.Arrive? then [e] else []
  }

  lemma {:induction false} AllArrive(events: seq<Event>)
    ensures forall r <- Requests(events) :: r.Arrive?
  {
    if events != [] { AllArrive(events[1..]); }
  }

  /** The k-th request asks for all slots, or for one. */
  predicate AsksFor(requests: seq<Event>, k: nat, maxActive: nat, count: nat) {
    k < |requests| && requests[k].Arrive? && count == if requests[k].exclusive then maxActive else 1
  }

  predicate StandsAs(requests: seq<Event>, maxActive: nat, w: Waiter) {
    AsksFor(requests, w.token, maxActive, w.count) && w.priority == requests[w.token].priority
  }

  ghost predicate Fits(g: Gate, requests: seq<Event>) {
    && g.arrivals == |requests|
    && (forall w <- g.waiters :: StandsAs(requests, g.maxActive, w))
    && (forall t <- g.held :: AsksFor(requests, t, g.maxActive, g.held[t]))
  }

  lemma StepFits(g: Gate, e: Event, requests: seq<Event>)
    requires Sound(g) && Enabled(g, e) && Fits(g, requests)
    ensures Fits(Step(g, e), requests + RequestIn(e))
  {
    match e
    case Arrive(exclusive, priority, expired) =>
      JoinFits(g, e, requests);
      JoinKeeps(g, exclusive, priority);
      LookFits(Join(g, exclusive, priority), g.arrivals, expired, requests + [e]);
    case Wake(who, expired) =>
      LookFits(g, who, expired, requests);
      assert requests + RequestIn(e) == requests;
    case Release(_) =>
      assert requests + RequestIn(e) == requests;
  }

  lemma JoinFits(g: Gate, e: Event, requests: seq<Event>)
    requires Fits(g, requests) && e.Arrive?
    ensures Fits(Join(g, e.exclusive, e.priority), requests + [e])
  {
    var g1 := Join(g, e.exclusive, e.priority);
    forall w <- g1.waiters ensures StandsAs(requests + [e], g.maxActive, w) {
      assert w in g.waiters || w.token == g.arrivals;
    }
  }

  lemma LookFits(g: Gate, t: Token, expired: bool, requests: seq<Event>)
    requires Inv(g) && Fits(g, requests)
    ensures Fits(Look(g, t, expired), requests)
  {
    if Admits(g, t) {
      var ws, i := g.waiters, First(g.waiters);
      RemovedMembers(ws, i);
      assert ws[i] in ws;
    }
  }

  lemma FirstRequest(events: seq<Event>, requests: seq<Event>)
    requires events != []
    ensures requests + RequestIn(events[0]) + Requests(events[1..]) == requests + Requests(events)
  {
    Sequences.Assoc(requests, RequestIn(events[0]), Requests(events[1..]));
  }

  lemma {:induction false} RunFits(g: Gate, events: seq<Event>, requests: seq<Event>)
    requires Sound(g) && Legal(g, events) && Fits(g, requests)
    ensures Fits(After(g, events), requests + Requests(events))
    decreases |events|
  {
    if events == [] {
      assert requests + Requests(events) == requests;
    } else {
      StepKeeps(g, events[0]);
      StepFits(g, events[0], requests);
      RunFits(Step(g, events[0]), events[1..], requests + RequestIn(events[0]));
      FirstRequest(events, requests);
    }
  }

  /** In every interleaving each waiting thread stands in line with the priority of its own request, and
      waits for, or holds, all slots or one slot as it asked. */
  lemma RequestsAreKept(maxActive: nat, events: seq<Event>)
    requires maxActive >= 1 && Legal(Open(maxActive), events)
    ensures var g, requests := After(Open(maxActive), events), Requests(events);
            && g.arrivals == |requests| && (forall r <- requests :: r.Arrive?)
            && (forall w <- g.waiters :: w.token < |requests| && w.priority == requests[w.token].priority
                  && w.count == if requests[w.token].exclusive then maxActive else 1)
            && (forall t <- g.held :: t < |requests|
                  && g.held[t] == if requests[t].exclusive then maxActive else 1)
  {
    AllArrive(events);
    OpenIsSound(maxActive);
    RunFits(Open(maxActive), events, []);
    RunKeeps(Open(maxActive), events);
    assert [] + Requests(events) == Requests(events);
  }

  /** Whoever is admitted asked for no worse priority than anyone who still waits, and for a better one than
      those who asked before. */
  lemma AdmittedInOrder(maxActive: nat, events: seq<Event>, e: Event, t: Token)
    requires maxActive >= 1 && Legal(Open(maxActive), events) && Enabled(After(Open(maxActive), events), e)
    requires var g := After(Open(maxActive), events); t !in g.held && t in Step(g, e).held
    ensures var g', requests := Step(After(Open(maxActive), events), e), Requests(events) + RequestIn(e);
            t < |requests| && requests[t].Arrive? && Fair(requests, g', t)
  {
    var g, requests := After(Open(maxActive), events), Requests(events);
    OpenIsSound(maxActive);
    RunKeeps(Open(maxActive), events);
    RunFits(Open(maxActive), events, []);
    assert [] + requests == requests;
    if e.Arrive? {
      ArriveIsFair(g, e, requests, t);
    } else {
      assert e.Wake? && requests + RequestIn(e) == requests;
      LookIsFair(g, e.who, e.expired, requests, t);
    }
  }

  lemma ArriveIsFair(g: Gate, e: Event, requests: seq<Event>, t: Token)
    requires Sound(g) && Fits(g, requests) && e.Arrive? && t !in g.held && t in Step(g, e).held
    ensures t < |requests + [e]| && (requests + [e])[t].Arrive?
    ensures Fair(requests + [e], Step(g, e), t)
  {
    JoinFits(g, e, requests);
    JoinKeeps(g, e.exclusive, e.priority);
    LookIsFair(Join(g, e.exclusive, e.priority), g.arrivals, e.expired, requests + [e], t);
  }

  /** Everyone who still waits asked for no better priority, and for a worse one if it asked earlier. */
  predicate Fair(requests: seq<Event>, g: Gate, t: Token)
    requires t < |requests| && requests[t].Arrive?
  {
    forall w <- g.waiters ::
      && w.token < |requests| && requests[w.token].Arrive?
      && requests[t].priority <= requests[w.token].priority
      && (w.token < t ==> requests[t].priority < requests[w.token].priority)
  }

  lemma LookIsFair(g: Gate, who: Token, expired: bool, requests: seq<Event>, t: Token)
    requires Sound(g) && Fits(g, requests) && t !in g.held && t in Look(g, who, expired).held
    ensures t == who && t < |requests| && requests[t].Arrive? && Fair(requests, Look(g, who, expired), t)
  {
    AdmissionIsFair(g, t, expired);
    LookFits(g, t, expired, requests);
  }

  // ----- An urgent request -----

  /** One slot is taken, an ordinary request and then an urgent one wait, and the slot is given back: the
      urgent one is admitted first. */
  lemma UrgentOvertakes()
    ensures var events := [Event.Arrive(false, 1, false)] + ([Event.Arrive(false, 1, false)] +
                          ([Event.Arrive(false, 0, false)] + ([Event.Release(0)] +
                          ([Wake(1, false)] + ([Wake(2, false)] + [])))));
            && Legal(Open(1), events)
            && After(Open(1), events) == Gate(1, 0, [Waiter(1, 1, 1)], map[2 := 1], {1}, 3)
  {
    var g1 := Gate(1, 0, [], map[0 := 1], {}, 1);
    var g2 := Gate(1, 0, [Waiter(1, 1, 1)], map[0 := 1], {1}, 2);
    var g3 := Gate(1, 0, [Waiter(1, 1, 1), Waiter(2, 0, 1)], map[0 := 1], {1, 2}, 3);
    var g4 := Gate(1, 1, [Waiter(1, 1, 1), Waiter(2, 0, 1)], map[], {}, 3);
    var g5 := g4.(asleep := {1});
    var end := Gate(1, 0, [Waiter(1, 1, 1)], map[2 := 1], {1}, 3);
    FirstEnters();
    SecondWaits();
    ThirdWaits();
    Leaving();
    var last := [Wake(1, false)] + ([Wake(2, false)] + []);
    Prepend(g5, Wake(2, false), end, [], end);
    Prepend(g4, Wake(1, false), g5, [Wake(2, false)] + [], end);
    Prepend(g3, Event.Release(0), g4, last, end);
    Prepend(g2, Event.Arrive(false, 0, false), g3, [Event.Release(0)] + last, end);
    Prepend(g1, Event.Arrive(false, 1, false), g2, [Event.Arrive(false, 0, false)] + ([Event.Release(0)] + last), end);
    Prepend(Open(1), Event.Arrive(false, 1, false), g1, [Event.Arrive(false, 1, false)] +
        ([Event.Arrive(false, 0, false)] + ([Event.Release(0)] + last)), end);
  }

  /** The urgent one is first, wherever it stands. */
  lemma UrgentIsFirst()
    ensures First([Waiter(1, 1, 1), Waiter(2, 0, 1)]) == 1
  {
    FirstUnique([Waiter(1, 1, 1), Waiter(2, 0, 1)], 1, First([Waiter(1, 1, 1), Waiter(2, 0, 1)]));
  }

  lemma FirstEnters()
    ensures Step(Open(1), Event.Arrive(false, 1, false)) == Gate(1, 0, [], map[0 := 1], {}, 1)
  {
    assert RemoveAt([Waiter(0, 1, 1)], 0) == [];
  }

  lemma SecondWaits()
    ensures Step(Gate(1, 0, [], map[0 := 1], {}, 1), Event.Arrive(false, 1, false)) ==
            Gate(1, 0, [Waiter(1, 1, 1)], map[0 := 1], {1}, 2)
  {
    var g := Join(Gate(1, 0, [], map[0 := 1], {}, 1), false, 1);
    assert g.waiters == [Waiter(1, 1, 1)] && !Admits(g, 1);
  }

  lemma ThirdWaits()
    ensures Step(Gate(1, 0, [Waiter(1, 1, 1)], map[0 := 1], {1}, 2), Event.Arrive(false, 0, false)) ==
            Gate(1, 0, [Waiter(1, 1, 1), Waiter(2, 0, 1)], map[0 := 1], {1, 2}, 3)
  {
    var g := Join(Gate(1, 0, [Waiter(1, 1, 1)], map[0 := 1], {1}, 2), false, 0);
    assert g.waiters == [Waiter(1, 1, 1), Waiter(2, 0, 1)];
    UrgentIsFirst();
    assert !Admits(g, 2);
  }

  lemma Leaving()
    ensures var ws := [Waiter(1, 1, 1), Waiter(2, 0, 1)];
            && Step(Gate(1, 0, ws, map[0 := 1], {1, 2}, 3), Event.Release(0)) == Gate(1, 1, ws, map[], {}, 3)
            && Enabled(Gate(1, 1, ws, map[], {}, 3), Wake(1, false))
            && Enabled(Gate(1, 1, ws, map[], {1}, 3), Wake(2, false))
            && Step(Gate(1, 1, ws, map[], {}, 3), Wake(1, false)) == Gate(1, 1, ws, map[], {1}, 3)
            && Step(Gate(1, 1, ws, map[], {1}, 3), Wake(2, false)) ==
               Gate(1, 0, [Waiter(1, 1, 1)], map[2 := 1], {1}, 3)
  {
    var ws := [Waiter(1, 1, 1), Waiter(2, 0, 1)];
    UrgentIsFirst();
    assert ws[0] in ws && ws[1] in ws;
    assert map[0 := 1] - {0} == map[];
    assert RemoveAt(ws, 1) == [Waiter(1, 1, 1)];
  }
}
