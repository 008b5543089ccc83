/** The proxy's circuit breaker in front of its upstream. */
module CircuitBreaking {

  type Time = int

  datatype CircuitState = Closed | Open | HalfOpen

  const HALF_OPEN_MAX := 2

  datatype Breaker = Breaker(
    state: CircuitState, failures: int, successes: int, lastFailure: Time, threshold: int, timeout: int) {

    predicate Grants(now: Time) {
      state.Open? ==> now - lastFailure > timeout
    }

    function AfterAllow(now: Time): Breaker {
      if state.Open? && now - lastFailure > timeout then this.(state := HalfOpen, successes := 0) else this
    }

    function AfterSuccess(): Breaker {
      if state.HalfOpen? then
        if successes + 1 >= HALF_OPEN_MAX then this.(successes := successes + 1, state := Closed, failures := 0)
        else this.(successes := successes + 1)
      else this.(failures := 0)
    }

    function AfterFailure(now: Time): Breaker {
      this.(failures := failures + 1, lastFailure := now, state := if failures + 1 >= threshold then Open else state)
    }
  }

  function NewBreaker(threshold: int, timeout: int, lastFailure: Time): Breaker {
    Breaker(Closed, 0, 0, lastFailure, threshold, timeout)
  }

  class CircuitBreaker {
    var state: CircuitState
    var failures: int
    var successes: int
    const threshold: int
    const timeout: int
    const halfOpenMax: int
    var lastFailure: Time

    ghost function View(): Breaker
      reads this
    {
      Breaker(state, failures, successes, lastFailure, threshold, timeout)
    }

    constructor (threshold: int, timeout: int, zeroTime: Time)
      ensures View() == NewBreaker(threshold, timeout, zeroTime)
      ensures halfOpenMax == HALF_OPEN_MAX
    {
      state, failures, successes, lastFailure := Closed, 0, 0, zeroTime;
      this.threshold, this.timeout, halfOpenMax := threshold, timeout, 2;
    }

    method Allow(now: Time) returns (granted: bool)
      modifies this
      ensures granted == old(View()).Grants(now)
      ensures View() == old(View()).AfterAllow(now)
    {
      match state {
        case Closed => return true;
        case Open =>
          if now - lastFailure > timeout {
            state := HalfOpen;
            successes := 0;
            return true;
          }
          return false;
        case HalfOpen => return true;
      }
    }

    method RecordSuccess()
      requires halfOpenMax == HALF_OPEN_MAX
      modifies this
      ensures View() == old(View()).AfterSuccess()
    {
      if state == HalfOpen {
        successes := successes + 1;
        if successes >= halfOpenMax {
          state := Closed;
          failures := 0;
        }
      } else {
        failures := 0;
      }
    }

    method RecordFailure(now: Time)
      modifies this
      ensures View() == old(View()).AfterFailure(now)
    {
      failures := failures + 1;
      lastFailure := now;
      if failures >= threshold {
        state := Open;
      }
    }
  }

  // ----- arbitrary runs: calls and records of many requests, interleaved -----

  datatype Event = Allow(at: Time) | Success | Failure(at: Time)

  function Next(b: Breaker, e: Event): Breaker {
    match e
    case Allow(at) => b.AfterAllow(at)
    case Success => b.AfterSuccess()
    case Failure(at) => b.AfterFailure(at)
  }

  /** The breaker after the first `i` events of a run. */
  function StateAt(b: Breaker, events: seq<Event>, i: nat): Breaker
    requires i <= |events|
  {
    if i == 0 then b else Next(StateAt(b, events, i - 1), events[i - 1])
  }

  /** The least index from `i` on at which the breaker is closed. */
  lemma {:induction false} FirstClosed(b: Breaker, events: seq<Event>, i: nat, n: nat) returns (c: nat)
    requires i <= n <= |events| && StateAt(b, events, n).state.Closed?
    ensures i <= c <= n && StateAt(b, events, c).state.Closed?
    ensures forall j | i <= j < c :: !StateAt(b, events, j).state.Closed?
    decreases n - i
  {
    if StateAt(b, events, i).state.Closed? {
      c := i;
    } else {
      c := FirstClosed(b, events, i + 1, n);
    }
  }

  /** The greatest index up to `n` at which the breaker is open. */
  lemma {:induction false} LastOpen(b: Breaker, events: seq<Event>, i: nat, n: nat) returns (j: nat)
    requires i <= n <= |events| && StateAt(b, events, i).state.Open?
    ensures i <= j <= n && StateAt(b, events, j).state.Open?
    ensures forall k | j < k <= n :: !StateAt(b, events, k).state.Open?
    decreases n
  {
    if StateAt(b, events, n).state.Open? {
      j := n;
    } else {
      j := LastOpen(b, events, i, n - 1);
    }
  }

  /** While half-open, the success count only rises when a success is recorded. */
  lemma {:induction false} SuccessBetween(b: Breaker, events: seq<Event>, i: nat, m: nat) returns (k: nat)
    requires i <= m <= |events|
    requires forall j | i <= j <= m :: StateAt(b, events, j).state.HalfOpen?
    requires StateAt(b, events, i).successes < StateAt(b, events, m).successes
    ensures i <= k < m && events[k].Success?
    decreases m
  {
    if events[m - 1].Success? {
      k := m - 1;
    } else {
      k := SuccessBetween(b, events, i, m - 1);
    }
  }

  ghost predicate RecoversThrough(b: Breaker, events: seq<Event>, j: nat, k: nat, m: nat) {
    && j < k < m < |events|
    && StateAt(b, events, j).state.Open?
    && events[j].Allow? && events[j].at > StateAt(b, events, j).lastFailure + b.timeout
    && (forall i | j < i <= m :: StateAt(b, events, i).state.HalfOpen?)
    && events[k].Success? && events[m].Success?
    && StateAt(b, events, m + 1).state.Closed?
  }

  lemma {:induction false} TimeoutKept(b: Breaker, events: seq<Event>, i: nat)
    requires i <= |events|
    ensures StateAt(b, events, i).timeout == b.timeout && StateAt(b, events, i).threshold == b.threshold
  {
    if i > 0 {
      TimeoutKept(b, events, i - 1);
    }
  }

  lemma LeavesOpen(b: Breaker, events: seq<Event>, j: nat)
    requires j < |events| && StateAt(b, events, j).state.Open? && !StateAt(b, events, j + 1).state.Open?
    ensures events[j].Allow? && events[j].at > StateAt(b, events, j).lastFailure + b.timeout
    ensures StateAt(b, events, j + 1).state.HalfOpen? && StateAt(b, events, j + 1).successes == 0
  {
    TimeoutKept(b, events, j);
  }

  lemma EntersClosed(b: Breaker, events: seq<Event>, m: nat)
    requires m < |events| && !StateAt(b, events, m).state.Closed? && StateAt(b, events, m + 1).state.Closed?
    ensures StateAt(b, events, m).state.HalfOpen? && events[m].Success?
    ensures StateAt(b, events, m).successes + 1 >= HALF_OPEN_MAX
  {
  }

  /** However requests interleave, an open breaker closes only through a call later than the last
      failure by more than the timeout, followed by two successes with the breaker half-open
      throughout. */
  lemma OpenClosesOnlyByProbing(b: Breaker, events: seq<Event>)
    requires b.state.Open? && StateAt(b, events, |events|).state.Closed?
    ensures exists j, k, m :: RecoversThrough(b, events, j, k, m)
  {
    var c := FirstClosed(b, events, 0, |events|);
    var j := LastOpen(b, events, 0, c - 1);
    var k := ProbedBetween(b, events, j, c - 1);
  }

  /** From the last time the breaker was open up to its first closing. */
  lemma ProbedBetween(b: Breaker, events: seq<Event>, j: nat, m: nat) returns (k: nat)
    requires j <= m < |events| && StateAt(b, events, j).state.Open?
    requires forall i | j < i <= m :: StateAt(b, events, i).state.HalfOpen?
    requires StateAt(b, events, m + 1).state.Closed?
    ensures RecoversThrough(b, events, j, k, m)
  {
    EntersClosed(b, events, m);
    LeavesOpen(b, events, j);
    k := SuccessBetween(b, events, j + 1, m);
  }

  /** No success is recorded while the breaker is open. */
  ghost predicate NoLateSuccess(b: Breaker, events: seq<Event>) {
    forall i | 0 <= i < |events| && events[i].Success? :: !StateAt(b, events, i).state.Open?
  }

  lemma {:induction false} FailuresStayAtThreshold(b: Breaker, events: seq<Event>, i: nat)
    requires b.state.Closed? && i <= |events| && NoLateSuccess(b, events)
    ensures !StateAt(b, events, i).state.Closed? ==> StateAt(b, events, i).failures >= b.threshold
  {
    TimeoutKept(b, events, i);
    if i > 0 {
      FailuresStayAtThreshold(b, events, i - 1);
      TimeoutKept(b, events, i - 1);
    }
  }

  /** A success at `i` that wipes out the failures before it: one recorded outside half-open, or the one that
      closes the breaker. */
  predicate Forgives(b: Breaker, events: seq<Event>, i: nat)
    requires i < |events|
  {
    events[i].Success? && (!StateAt(b, events, i).state.HalfOpen? || StateAt(b, events, i + 1).state.Closed?)
  }

  /** Nothing from `j` up to `i` wipes out failures, and what comes just before `j` does, or `j` is the start. */
  ghost predicate SinceForgiven(b: Breaker, events: seq<Event>, j: nat, i: nat) {
    && j <= i <= |events|
    && (j > 0 ==> Forgives(b, events, j - 1))
    && (forall k | j <= k < i :: !Forgives(b, events, k))
  }

  function FailuresIn(events: seq<Event>): nat {
    if events == [] then 0
    else FailuresIn(events[..|events| - 1]) + if events[|events| - 1].Failure? then 1 else 0
  }

  /** The breaker's count is what the history says: the failures since they were last forgiven. */
  lemma {:induction false} CountIsHistory(b: Breaker, events: seq<Event>, j: nat, i: nat)
    requires SinceForgiven(b, events, j, i)
    ensures StateAt(b, events, i).failures == FailuresIn(events[j..i]) + if j == 0 then b.failures else 0
    decreases i
  {
    if i == j {
      if j > 0 {
        assert Forgives(b, events, j - 1);
      }
    } else {
      CountIsHistory(b, events, j, i - 1);
      assert !Forgives(b, events, i - 1);
      assert events[j..i][..i - j - 1] == events[j..i - 1];
    }
  }

  lemma {:induction false} LastForgiven(b: Breaker, events: seq<Event>, i: nat) returns (j: nat)
    requires i <= |events|
    ensures SinceForgiven(b, events, j, i)
  {
    if i == 0 || Forgives(b, events, i - 1) {
      j := i;
    } else {
      j := LastForgiven(b, events, i - 1);
    }
  }

  /** A failure recorded while half-open opens the breaker again exactly when, with it, the threshold is
      reached by the failures recorded since the last success that was recorded outside half-open or closed
      the breaker.  A breaker starts with none. */
  lemma HalfOpenFailureReopensIff(b: Breaker, events: seq<Event>, j: nat, i: nat)
    requires i < |events| && SinceForgiven(b, events, j, i)
    requires StateAt(b, events, i).state.HalfOpen? && events[i].Failure?
    ensures StateAt(b, events, i + 1).state.Open? <==>
            FailuresIn(events[j..i + 1]) + (if j == 0 then b.failures else 0) >= b.threshold
  {
    CountIsHistory(b, events, j, i);
    assert events[j..i + 1][..i - j] == events[j..i];
    TimeoutKept(b, events, i);
  }

  /** Without late successes every failure recorded while half-open opens the breaker again. */
  lemma HalfOpenFailureReopens(b: Breaker, events: seq<Event>, i: nat)
    requires b.state.Closed? && i < |events| && NoLateSuccess(b, events)
    requires StateAt(b, events, i).state.HalfOpen? && events[i].Failure?
    ensures StateAt(b, events, i + 1).state.Open?
  {
    FailuresStayAtThreshold(b, events, i);
    var j := LastForgiven(b, events, i);
    CountIsHistory(b, events, j, i);
    assert events[j..i + 1][..i - j] == events[j..i];
    HalfOpenFailureReopensIff(b, events, j, i);
  }

  /** With one late success it does not: a success recorded while open resets the count, and the
      failure of the next probe leaves the breaker half-open. */
  lemma LateSuccessHidesProbeFailure()
    ensures var b := NewBreaker(2, 30, 0);
      var events := [Failure(1), Failure(2), Success, Allow(40), Failure(41)];
      StateAt(b, events, 2).state.Open? && StateAt(b, events, 4).state.HalfOpen? &&
        StateAt(b, events, 5).state.HalfOpen?
  {
    var b := NewBreaker(2, 30, 0);
    var events := [Failure(1), Failure(2), Success, Allow(40), Failure(41)];
    assert StateAt(b, events, 1) == Breaker(Closed, 1, 0, 1, 2, 30);
    assert StateAt(b, events, 2) == Breaker(Open, 2, 0, 2, 2, 30);
    assert StateAt(b, events, 3) == Breaker(Open, 0, 0, 2, 2, 30);
    assert StateAt(b, events, 4) == Breaker(HalfOpen, 0, 0, 2, 2, 30);
    assert StateAt(b, events, 5) == Breaker(HalfOpen, 1, 0, 41, 2, 30);
  }

  // ----- serial runs: each granted call is settled before the next -----

  datatype Outcome = Unrecorded | Succeeded | Failed

  datatype Call = Call(at: Time, outcome: Outcome, recordedAt: Time)

  function Settle(b: Breaker, c: Call): Breaker {
    var asked := b.AfterAllow(c.at);
    if !b.Grants(c.at) then asked
    else match c.outcome
      case Unrecorded => asked
      case Succeeded => asked.AfterSuccess()
      case Failed => asked.AfterFailure(c.recordedAt)
  }

  function AfterCalls(b: Breaker, calls: seq<Call>): Breaker {
    if calls == [] then b else Settle(AfterCalls(b, calls[..|calls| - 1]), calls[|calls| - 1])
  }

  /** The textbook breaker: count consecutive failures, wait, probe twice. */
  datatype Phase = Counting(failed: int) | Tripped(since: Time) | Probing(succeeded: int)

  function PhaseGrants(p: Phase, timeout: int, now: Time): bool {
    p.Tripped? ==> now > p.since + timeout
  }

  function PhaseAfter(p: Phase, threshold: int, timeout: int, c: Call): Phase {
    if !PhaseGrants(p, timeout, c.at) then p
    else
      var asked := if p.Tripped? then Probing(0) else p;
      match c.outcome
      case Unrecorded => asked
      case Succeeded => if asked == Probing(0) then Probing(1) else Counting(0)
      case Failed => if asked.Counting? && asked.failed + 1 < threshold then
        Counting(asked.failed + 1) else Tripped(c.recordedAt)
  }

  function PhaseAfterCalls(threshold: int, timeout: int, calls: seq<Call>): Phase {
    if calls == [] then Counting(0)
    else PhaseAfter(PhaseAfterCalls(threshold, timeout, calls[..|calls| - 1]), threshold, timeout, calls[|calls| - 1])
  }

  function PhaseOf(b: Breaker): Phase {
    match b.state
    case Closed => Counting(b.failures)
    case Open => Tripped(b.lastFailure)
    case HalfOpen => Probing(b.successes)
  }

  ghost predicate Settled(b: Breaker) {
    && b.threshold >= 1
    && (b.state.Closed? ==> 0 <= b.failures < b.threshold)
    && (!b.state.Closed? ==> b.failures >= b.threshold)
    && (b.state.HalfOpen? ==> 0 <= b.successes < HALF_OPEN_MAX)
  }

  /** In serial use the breaker is the textbook one. */
  lemma {:induction false} SerialRefines(threshold: int, timeout: int, zeroTime: Time, calls: seq<Call>)
    requires threshold >= 1
    ensures var b := AfterCalls(NewBreaker(threshold, timeout, zeroTime), calls);
      && Settled(b) && b.threshold == threshold && b.timeout == timeout
      && PhaseOf(b) == PhaseAfterCalls(threshold, timeout, calls)
      && forall now :: b.Grants(now) == PhaseGrants(PhaseOf(b), timeout, now)
    decreases |calls|
  {
    if calls != [] {
      SerialRefines(threshold, timeout, zeroTime, calls[..|calls| - 1]);
    }
  }

  /** The consecutive failures at the end of a run. */
  function TrailingFailures(calls: seq<Call>): nat {
    if calls == [] then 0
    else match calls[|calls| - 1].outcome
      case Unrecorded => TrailingFailures(calls[..|calls| - 1])
      case Succeeded => 0
      case Failed => 1 + TrailingFailures(calls[..|calls| - 1])
  }

  lemma {:induction false} CountsTrailingFailures(threshold: int, timeout: int, calls: seq<Call>)
    requires threshold >= 1
    ensures var p := PhaseAfterCalls(threshold, timeout, calls);
      p.Counting? ==> p.failed == TrailingFailures(calls) < threshold
    decreases |calls|
  {
    if calls != [] {
      CountsTrailingFailures(threshold, timeout, calls[..|calls| - 1]);
    }
  }

  /** In serial use a closed breaker opens with a call exactly when that call is the last of
      `threshold` consecutive failures, and a half-open one exactly when the call fails. */
  lemma OpensExactlyAtThreshold(threshold: int, timeout: int, zeroTime: Time, calls: seq<Call>, c: Call)
    requires threshold >= 1
    ensures var b := AfterCalls(NewBreaker(threshold, timeout, zeroTime), calls);
      var b' := AfterCalls(NewBreaker(threshold, timeout, zeroTime), calls + [c]);
      && (b.state.Closed? ==> (b'.state.Open? <==> c.outcome.Failed? && TrailingFailures(calls + [c]) == threshold))
      && (b.state.HalfOpen? ==> (b'.state.Open? <==> c.outcome.Failed?))
  {
    assert (calls + [c])[..|calls + [c]| - 1] == calls;
    SerialRefines(threshold, timeout, zeroTime, calls);
    CountsTrailingFailures(threshold, timeout, calls);
  }
}
