/** The byte-rate clock shared by in-process transfers. */
module RateClock {
  import opened Basics

  /** One throttle call of a direction: when it was made and for how many bytes. */
  datatype Call = Call(now: real, bytes: int)

  /** The clock after a call; calls for no bytes leave it alone. */
  function Tick(rate: real, next: real, c: Call): real
    requires rate > 0.0
  {
    if c.bytes <= 0 then next else Max(c.now, next) + c.bytes as real / rate
  }

  /** The clock before the n-th call of a run. */
  function Clock(rate: real, next: real, calls: seq<Call>, n: nat): real
    requires rate > 0.0 && n <= |calls|
  {
    if n == 0 then next else Tick(rate, Clock(rate, next, calls, n - 1), calls[n-1])
  }

  /** When the i-th call may start to move its bytes. */
  function StartAt(rate: real, next: real, calls: seq<Call>, i: nat): real
    requires rate > 0.0 && i < |calls|
  {
    Max(calls[i].now, Clock(rate, next, calls, i))
  }

  /** The bytes of the calls from i up to, not including, j. */
  function Bytes(calls: seq<Call>, i: nat, j: nat): nat
    requires i <= j <= |calls|
  {
    if i == j then 0 else Bytes(calls, i, j - 1) + (if calls[j-1].bytes > 0 then calls[j-1].bytes else 0)
  }

  /** The time the bytes of calls i to j take at the rate. */
  function Span(rate: real, calls: seq<Call>, i: nat, j: nat): real
    requires rate > 0.0 && i <= j <= |calls|
  {
    Bytes(calls, i, j) as real / rate
  }

  lemma DivAdd(a: real, b: real, rate: real)
    requires rate > 0.0
    ensures (a + b) / rate == a / rate + b / rate
  {
  }

  lemma SpanNext(rate: real, calls: seq<Call>, i: nat, j: nat)
    requires rate > 0.0 && i <= j < |calls|
    ensures Span(rate, calls, i, j + 1) ==
            Span(rate, calls, i, j) + (if calls[j].bytes > 0 then calls[j].bytes as real / rate else 0.0)
  {
    if calls[j].bytes > 0 { DivAdd(Bytes(calls, i, j) as real, calls[j].bytes as real, rate); }
  }

  /** Once a call has started, the clock stays ahead of it by the time of everything since. */
  lemma {:induction false} ClockAhead(rate: real, next: real, calls: seq<Call>, i: nat, j: nat)
    requires rate > 0.0 && i < j <= |calls| && calls[i].bytes > 0
    ensures Clock(rate, next, calls, j) >= StartAt(rate, next, calls, i) + Span(rate, calls, i, j)
  {
    SpanNext(rate, calls, i, j - 1);
    if i < j - 1 {
      ClockAhead(rate, next, calls, i, j - 1);
    } else {
      assert Bytes(calls, i, i) == 0;
    }
  }

  /** b bytes fit into the time gap at the rate. */
  ghost predicate Within(rate: real, b: real, gap: real) {
    b <= rate * gap
  }

  /** The bytes handed out between the starts of two calls never exceed rate times the time between. */
  lemma RateBound(rate: real, next: real, calls: seq<Call>, i: nat, j: nat)
    requires rate > 0.0 && i <= j < |calls| && calls[i].bytes > 0
    ensures Within(rate, Bytes(calls, i, j) as real, StartAt(rate, next, calls, j) - StartAt(rate, next, calls, i))
  {
    if i < j { ClockAhead(rate, next, calls, i, j); }
    SpanBound(rate, Bytes(calls, i, j) as real, StartAt(rate, next, calls, j) - StartAt(rate, next, calls, i));
  }

  lemma SpanBound(rate: real, b: real, gap: real)
    requires rate > 0.0 && gap >= b / rate
    ensures Within(rate, b, gap)
  {
    MulMonotone(rate, b / rate, gap);
    MulDiv(rate, b);
  }

  lemma MulMonotone(rate: real, a: real, b: real)
    requires rate > 0.0 && a <= b
    ensures rate * a <= rate * b
  {
  }

  lemma MulDiv(rate: real, x: real)
    requires rate > 0.0
    ensures rate * (x / rate) == x
  {
  }

  /** What a start waits for: an earlier call's time plus everything moved since. */
  ghost predicate Behind(rate: real, next: real, calls: seq<Call>, j: nat, t: real)
    requires rate > 0.0 && j <= |calls|
  {
    || t == next + Span(rate, calls, 0, j)
    || exists i :: 0 <= i < j && calls[i].bytes > 0 && t == calls[i].now + Span(rate, calls, i, j)
  }

  lemma {:induction false} ClockIsExact(rate: real, next: real, calls: seq<Call>, j: nat)
    requires rate > 0.0 && j <= |calls|
    ensures Behind(rate, next, calls, j, Clock(rate, next, calls, j))
    ensures Clock(rate, next, calls, j) >= next + Span(rate, calls, 0, j)
    ensures forall i :: 0 <= i < j && calls[i].bytes > 0 ==>
            Clock(rate, next, calls, j) >= calls[i].now + Span(rate, calls, i, j)
  {
    if j > 0 {
      ClockIsExact(rate, next, calls, j - 1);
      var before, c := Clock(rate, next, calls, j - 1), calls[j-1];
      SpanNext(rate, calls, 0, j - 1);
      forall i | 0 <= i < j && calls[i].bytes > 0
        ensures Clock(rate, next, calls, j) >= calls[i].now + Span(rate, calls, i, j)
      {
        SpanNext(rate, calls, i, j - 1);
        if i == j - 1 { assert Bytes(calls, i, i) == 0; }
      }
      if c.bytes > 0 && c.now >= before {
        SpanNext(rate, calls, j - 1, j - 1);
        assert Bytes(calls, j - 1, j - 1) == 0;
        assert Clock(rate, next, calls, j) == calls[j-1].now + Span(rate, calls, j - 1, j);
      } else if before != next + Span(rate, calls, 0, j - 1) {
        var i :| 0 <= i < j - 1 && calls[i].bytes > 0 && before == calls[i].now + Span(rate, calls, i, j - 1);
        SpanNext(rate, calls, i, j - 1);
        assert Clock(rate, next, calls, j) == calls[i].now + Span(rate, calls, i, j);
      }
    } else {
      assert Bytes(calls, 0, 0) == 0;
    }
  }

  /** A start is the latest of its own time, the initial clock plus everything so far, and every
      earlier call's time plus everything from it on: it never waits longer than the rate asks. */
  lemma StartIsExact(rate: real, next: real, calls: seq<Call>, j: nat)
    requires rate > 0.0 && j < |calls|
    ensures var t := StartAt(rate, next, calls, j);
            && (t == calls[j].now || Behind(rate, next, calls, j, t))
            && t >= calls[j].now && t >= next + Span(rate, calls, 0, j)
            && forall i :: 0 <= i < j && calls[i].bytes > 0 ==> t >= calls[i].now + Span(rate, calls, i, j)
  {
    ClockIsExact(rate, next, calls, j);
  }

  /** A reconfiguration forgives what the old clock was ahead: the next caller starts at once, and the
      bytes of the call before it exceed the rate up to there if and only if it would have waited. */
  lemma RestartForgives(rate: real, next: real, before: Call, rate': real, after: Call)
    requires rate > 0.0 && rate' > 0.0 && before.bytes > 0 && after.now >= 0.0
    ensures StartAt(rate', 0.0, [after], 0) == after.now
    ensures Within(rate, before.bytes as real, StartAt(rate', 0.0, [after], 0) - StartAt(rate, next, [before], 0)) <==>
            Clock(rate, next, [before], 1) <= after.now
  {
    var start := StartAt(rate, next, [before], 0);
    var b := before.bytes as real;
    assert Clock(rate, next, [before], 0) == next && start == Max(before.now, next);
    assert Clock(rate, next, [before], 1) == start + b / rate;
    if start + b / rate <= after.now {
      SpanBound(rate, b, after.now - start);
    } else {
      MulDiv(rate, b);
      MulStrict(rate, after.now - start, b / rate);
    }
  }

  lemma MulStrict(rate: real, a: real, b: real)
    requires rate > 0.0 && a < b
    ensures rate * a < rate * b
  {
  }

  class Throttle {
    var nextDownload: real
    var nextUpload: real

    constructor ()
      ensures nextDownload == 0.0 && nextUpload == 0.0
    {
      nextDownload, nextUpload := 0.0, 0.0;
    }

    /** Reconfiguration restarts both clocks. */
    method Configure()
      modifies this
      ensures nextDownload == 0.0 && nextUpload == 0.0
    {
      nextDownload, nextUpload := 0.0, 0.0;
    }

    /** Books byteCount and returns how long the caller sleeps; an unlimited direction books nothing. */
    method Reserve(rate: Option<real>, byteCount: int, now: real, download: bool) returns (delay: real)
      modifies this
      ensures var limited := rate.Some? && rate.value > 0.0;
              var next := if download then old(nextDownload) else old(nextUpload);
              && (if download then nextUpload == old(nextUpload) else nextDownload == old(nextDownload))
              && (if download then nextDownload else nextUpload) ==
                 (if limited then Tick(rate.value, next, Call(now, byteCount)) else next)
              && now + delay == if limited && byteCount > 0 then StartAt(rate.value, next, [Call(now, byteCount)], 0)
                 else now
      ensures delay >= 0.0
    {
      delay := 0.0;
      if rate.None? || rate.value <= 0.0 || byteCount <= 0 { return; }
      var scheduled := Max(now, if download then nextDownload else nextUpload);
      if download {
        nextDownload := scheduled + byteCount as real / rate.value;
      } else {
        nextUpload := scheduled + byteCount as real / rate.value;
      }
      if scheduled - now > 0.0 { delay := scheduled - now; }
    }
  }
}
