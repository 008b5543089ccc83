/** The proxy's per-client token bucket. */
module RateLimiting {

  /** Seconds on a clock that never runs backwards. */
  type Seconds = real

  const IDLE_LIMIT: Seconds := 300.0

  /** The tokens that accrue in `time`. */
  function Gain(rate: real, time: Seconds): real {
    time * rate
  }

  datatype Bucket = Bucket(tokens: real, lastTime: Seconds)

  datatype Limiter = Limiter(rate: real, burst: int, buckets: map<string, Bucket>) {

    /** What `newRateLimiter` is called with, and what holds at time `t` of the buckets it keeps. */
    ghost predicate ValidAt(t: Seconds) {
      && rate > 0.0 && burst >= 1
      && forall ip | ip in buckets :: 0.0 <= buckets[ip].tokens <= burst as real && buckets[ip].lastTime <= t
    }

    function Refilled(b: Bucket, now: Seconds): real {
      var tokens := b.tokens + Gain(rate, now - b.lastTime);
      if tokens > burst as real then burst as real else tokens
    }

    /** The tokens client `ip` would find at time `t`; a client without a bucket finds a full one. */
    function Tokens(ip: string, t: Seconds): real {
      if ip in buckets then Refilled(buckets[ip], t) else burst as real
    }

    function Allows(ip: string, now: Seconds): bool {
      Tokens(ip, now) >= 1.0
    }

    function AfterRequest(ip: string, now: Seconds): Limiter {
      var left := if Allows(ip, now) then Tokens(ip, now) - 1.0 else Tokens(ip, now);
      this.(buckets := buckets[ip := Bucket(left, now)])
    }

    function AfterCleanup(now: Seconds): Limiter {
      this.(buckets := map ip | ip in buckets && now - buckets[ip].lastTime <= IDLE_LIMIT :: buckets[ip])
    }
  }

  class RateLimiter {
    var buckets: map<string, Bucket>
    const rate: real
    const burst: int

    ghost function View(): Limiter
      reads this
    {
      Limiter(rate, burst, buckets)
    }

    constructor (rate: real, burst: int)
      ensures View() == Limiter(rate, burst, map[])
    {
      this.rate, this.burst := rate, burst;
      buckets := map[];
    }

    method Allow(ip: string, now: Seconds) returns (allowed: bool)
      modifies this
      ensures allowed == old(View()).Allows(ip, now)
      ensures View() == old(View()).AfterRequest(ip, now)
    {
      if ip !in buckets {
        buckets := buckets[ip := Bucket(burst as real, now)];
      }
      var b := buckets[ip];
      var elapsed := now - b.lastTime;
      b := b.(tokens := b.tokens + Gain(rate, elapsed));
      assert Gain(rate, 0.0) == 0.0;
      if b.tokens > burst as real {
        b := b.(tokens := burst as real);
      }
      b := b.(lastTime := now);
      assert b.tokens == old(View()).Tokens(ip, now);
      assert buckets[ip := b] == old(buckets)[ip := b];
      buckets := buckets[ip := b];
      if b.tokens < 1.0 {
        return false;
      }
      buckets := buckets[ip := b.(tokens := b.tokens - 1.0)];
      return true;
    }

    method Cleanup(now: Seconds)
      modifies this
      ensures View() == old(View()).AfterCleanup(now)
      ensures forall ip :: ip in buckets <==> ip in old(buckets) && now - old(buckets)[ip].lastTime <= 300.0
      ensures forall ip | ip in buckets :: buckets[ip] == old(buckets)[ip]
    {
      var todo := buckets.Keys;
      while todo != {}
        invariant todo <= old(buckets).Keys
        invariant buckets == map ip | ip in old(buckets) &&
          (ip in todo || now - old(buckets)[ip].lastTime <= IDLE_LIMIT) :: old(buckets)[ip]
      {
        var ip :| ip in todo;
        todo := todo - {ip};
        if now - buckets[ip].lastTime > IDLE_LIMIT {
          buckets := buckets - {ip};
        }
      }
    }
  }

  /** The burst the server derives from its configured rate. */
  function ServerBurst(rate: real): int {
    var burst := (rate * 2.0).Floor;
    if burst < 1 then 1 else burst
  }

  // ----- runs -----

  datatype Event = Request(ip: string, at: Seconds) | CleanupAt(at: Seconds)

  function Next(l: Limiter, e: Event): Limiter {
    match e
    case Request(ip, at) => l.AfterRequest(ip, at)
    case CleanupAt(at) => l.AfterCleanup(at)
  }

  function After(l: Limiter, events: seq<Event>): Limiter
    decreases |events|
  {
    if events == [] then l else After(Next(l, events[0]), events[1..])
  }

  /** The answers to the requests of a run, in order. */
  function Decisions(l: Limiter, events: seq<Event>): seq<bool>
    decreases |events|
  {
    if events == [] then []
    else
      var rest := Decisions(Next(l, events[0]), events[1..]);
      if events[0].Request? then [l.Allows(events[0].ip, events[0].at)] + rest else rest
  }

  /** How many requests of `ip` a run lets through. */
  function Admitted(l: Limiter, events: seq<Event>, ip: string): nat
    decreases |events|
  {
    if events == [] then 0
    else
      (if events[0].Request? && events[0].ip == ip && l.Allows(ip, events[0].at) then 1 else 0)
      + Admitted(Next(l, events[0]), events[1..], ip)
  }

  function Requests(events: seq<Event>): seq<Event> {
    if events == [] then []
    else if events[0].Request? then [events[0]] + Requests(events[1..])
    else Requests(events[1..])
  }

  ghost predicate InOrder(events: seq<Event>, from: Seconds) {
    events != [] ==> events[0].at >= from && InOrder(events[1..], events[0].at)
  }

  function EndOf(events: seq<Event>, from: Seconds): Seconds {
    if events == [] then from else events[|events| - 1].at
  }

  // ----- single steps -----

  lemma ScaleMono(rate: real, a: real, b: real)
    requires rate >= 0.0 && a <= b
    ensures Gain(rate, a) <= Gain(rate, b)
  {
  }

  lemma Grows(rate: real, time: real)
    requires rate >= 0.0 && time >= 0.0
    ensures Gain(rate, time) >= 0.0
  {
  }

  lemma SplitTime(rate: real, a: real, b: real)
    ensures Gain(rate, a + b) == Gain(rate, a) + Gain(rate, b)
  {
  }

  lemma NextValid(l: Limiter, e: Event, t: Seconds)
    requires l.ValidAt(t) && e.at >= t
    ensures Next(l, e).ValidAt(e.at)
  {
    if e.Request? {
      TokensInRange(l, e.ip, t, e.at);
    }
  }

  lemma TokensInRange(l: Limiter, ip: string, t: Seconds, t': Seconds)
    requires l.ValidAt(t) && t <= t'
    ensures 0.0 <= l.Tokens(ip, t') <= l.burst as real
  {
    if ip in l.buckets {
      Grows(l.rate, t' - l.buckets[ip].lastTime);
    }
  }

  /** Waiting adds tokens at the rate, up to the burst. */
  lemma TokensLater(l: Limiter, ip: string, t: Seconds, t': Seconds)
    requires l.ValidAt(t) && t <= t'
    ensures l.Tokens(ip, t') ==
            var more := l.Tokens(ip, t) + Gain(l.rate, t' - t); if more > l.burst as real then l.burst as real else more
  {
    Grows(l.rate, t' - t);
    if ip in l.buckets {
      var last := l.buckets[ip].lastTime;
      SplitTime(l.rate, t - last, t' - t);
    }
  }

  lemma RequestTakesOne(l: Limiter, ip: string, other: string, now: Seconds)
    requires l.ValidAt(now)
    ensures l.AfterRequest(ip, now).Tokens(other, now) ==
            if other == ip && l.Allows(ip, now) then l.Tokens(other, now) - 1.0 else l.Tokens(other, now)
  {
    TokensInRange(l, ip, now, now);
    assert Gain(l.rate, now - now) == 0.0;
  }

  /** When an idle bucket is sure to have filled up, dropping it changes nobody's tokens. */
  lemma CleanupTakesNothing(l: Limiter, ip: string, now: Seconds)
    requires l.ValidAt(now) && Gain(l.rate, IDLE_LIMIT) >= l.burst as real
    ensures l.AfterCleanup(now).Tokens(ip, now) == l.Tokens(ip, now)
  {
    if ip in l.buckets && now - l.buckets[ip].lastTime > IDLE_LIMIT {
      ScaleMono(l.rate, IDLE_LIMIT, now - l.buckets[ip].lastTime);
      assert l.buckets[ip].tokens + Gain(l.rate, now - l.buckets[ip].lastTime) >= l.burst as real;
    }
  }

  // ----- the bound -----

  lemma {:induction false} AfterValid(l: Limiter, events: seq<Event>, from: Seconds)
    requires l.ValidAt(from) && InOrder(events, from)
    ensures After(l, events).ValidAt(EndOf(events, from)) && EndOf(events, from) >= from
    ensures After(l, events).rate == l.rate && After(l, events).burst == l.burst
    decreases |events|
  {
    if events != [] {
      NextValid(l, events[0], from);
      AfterValid(Next(l, events[0]), events[1..], events[0].at);
    }
  }

  ghost predicate CleanupHarmless(l: Limiter, events: seq<Event>) {
    Gain(l.rate, IDLE_LIMIT) >= l.burst as real || Requests(events) == events
  }

  lemma {:induction false} RequestsNoLonger(events: seq<Event>)
    ensures |Requests(events)| <= |events|
  {
    if events != [] {
      RequestsNoLonger(events[1..]);
    }
  }

  lemma {:induction false} AdmittedBound(l: Limiter, events: seq<Event>, from: Seconds, ip: string)
    requires l.ValidAt(from) && InOrder(events, from) && CleanupHarmless(l, events)
    ensures Admitted(l, events, ip) as real <= l.Tokens(ip, from) + Gain(l.rate, EndOf(events, from) - from)
    decreases |events|
  {
    if events == [] {
      TokensInRange(l, ip, from, from);
      Grows(l.rate, EndOf(events, from) - from);
    } else {
      var e, rest := events[0], events[1..];
      NextValid(l, e, from);
      HarmlessRest(l, events);
      AdmittedBound(Next(l, e), rest, e.at, ip);
      AdmittedStep(l, events, from, ip);
    }
  }

  lemma HarmlessRest(l: Limiter, events: seq<Event>)
    requires events != [] && CleanupHarmless(l, events)
    ensures CleanupHarmless(Next(l, events[0]), events[1..])
    ensures events[0].Request? || Gain(l.rate, IDLE_LIMIT) >= l.burst as real
  {
    RequestsNoLonger(events[1..]);
    if events[0].Request? && Requests(events) == events {
      assert Requests(events)[1..] == Requests(events[1..]);
    }
  }

  /** One event more: what it lets through comes out of the tokens there are. */
  lemma AdmittedStep(l: Limiter, events: seq<Event>, from: Seconds, ip: string)
    requires l.ValidAt(from) && events != [] && events[0].at >= from
    requires events[0].Request? || Gain(l.rate, IDLE_LIMIT) >= l.burst as real
    requires var e, rest := events[0], events[1..];
      Admitted(Next(l, e), rest, ip) as real <= Next(l, e).Tokens(ip, e.at) + Gain(l.rate, EndOf(rest, e.at) - e.at)
    ensures Admitted(l, events, ip) as real <= l.Tokens(ip, from) + Gain(l.rate, EndOf(events, from) - from)
  {
    var e, rest := events[0], events[1..];
    StepSpends(l, e, from, ip);
    assert EndOf(events, from) == EndOf(rest, e.at);
    SplitTime(l.rate, EndOf(events, from) - e.at, e.at - from);
  }

  lemma StepSpends(l: Limiter, e: Event, from: Seconds, ip: string)
    requires l.ValidAt(from) && e.at >= from
    requires e.Request? || Gain(l.rate, IDLE_LIMIT) >= l.burst as real
    ensures (if e.Request? && e.ip == ip && l.Allows(ip, e.at) then 1.0 else 0.0) + Next(l, e).Tokens(ip, e.at)
            <= l.Tokens(ip, from) + Gain(l.rate, e.at - from)
  {
    assert l.ValidAt(e.at);
    TokensLater(l, ip, from, e.at);
    match e {
      case Request(ip', at) => RequestTakesOne(l, ip', ip, at);
      case CleanupAt(at) => CleanupTakesNothing(l, ip, at);
    }
  }

  function NewLimiter(rate: real, burst: int): Limiter {
    Limiter(rate, burst, map[])
  }

  /** In any stretch of any run, one client gets at most `burst` requests through plus the rate times
      the duration of the stretch, as long as cleaning up is harmless; and no bucket ever leaves the
      range from 0 to `burst`. */
  lemma TokenBucketBound(rate: real, burst: int, before: seq<Event>, stretch: seq<Event>, start: Seconds, ip: string)
    requires rate > 0.0 && burst >= 1 && stretch != []
    requires InOrder(before, start) && InOrder(stretch, EndOf(before, start))
    requires Gain(rate, IDLE_LIMIT) >= burst as real || Requests(before + stretch) == before + stretch
    ensures var l := After(NewLimiter(rate, burst), before);
      && l.ValidAt(EndOf(before, start))
      && Admitted(l, stretch, ip) as real <= burst as real + Gain(rate, EndOf(stretch, start) - stretch[0].at)
  {
    var l := After(NewLimiter(rate, burst), before);
    var t := stretch[0].at;
    AfterValid(NewLimiter(rate, burst), before, start);
    assert l.ValidAt(t);
    if Requests(before + stretch) == before + stretch {
      OnlyRequestsSuffix(before, stretch);
    }
    AdmittedBound(l, stretch, t, ip);
    TokensInRange(l, ip, t, t);
    assert EndOf(stretch, t) == EndOf(stretch, start);
  }

  lemma {:induction false} OnlyRequestsSuffix(before: seq<Event>, stretch: seq<Event>)
    requires Requests(before + stretch) == before + stretch
    ensures Requests(stretch) == stretch
  {
    if before == [] {
      assert before + stretch == stretch;
    } else {
      var all := before + stretch;
      assert all[1..] == before[1..] + stretch;
      RequestsNoLonger(all[1..]);
      assert all[0].Request?;
      assert Requests(all)[1..] == Requests(all[1..]);
      OnlyRequestsSuffix(before[1..], stretch);
    }
  }

  // ----- cleaning up is invisible exactly when idle buckets are full -----

  ghost predicate SameTokens(l: Limiter, m: Limiter, t: Seconds) {
    && l.ValidAt(t) && m.ValidAt(t) && l.rate == m.rate && l.burst == m.burst
    && forall ip :: l.Tokens(ip, t) == m.Tokens(ip, t)
  }

  lemma SameTokensLater(l: Limiter, m: Limiter, t: Seconds, t': Seconds)
    requires SameTokens(l, m, t) && t <= t'
    ensures SameTokens(l, m, t')
  {
    forall ip ensures l.Tokens(ip, t') == m.Tokens(ip, t') {
      TokensLater(l, ip, t, t');
      TokensLater(m, ip, t, t');
    }
  }

  lemma SameAfterRequest(l: Limiter, m: Limiter, ip: string, now: Seconds)
    requires SameTokens(l, m, now)
    ensures l.Allows(ip, now) == m.Allows(ip, now)
    ensures SameTokens(l.AfterRequest(ip, now), m.AfterRequest(ip, now), now)
  {
    NextValid(l, Request(ip, now), now);
    NextValid(m, Request(ip, now), now);
    forall other ensures l.AfterRequest(ip, now).Tokens(other, now) == m.AfterRequest(ip, now).Tokens(other, now) {
      RequestTakesOne(l, ip, other, now);
      RequestTakesOne(m, ip, other, now);
    }
  }

  lemma SameAfterCleanup(l: Limiter, m: Limiter, now: Seconds)
    requires SameTokens(l, m, now) && Gain(l.rate, IDLE_LIMIT) >= l.burst as real
    ensures SameTokens(l.AfterCleanup(now), m, now)
  {
    NextValid(l, CleanupAt(now), now);
    forall ip ensures l.AfterCleanup(now).Tokens(ip, now) == m.Tokens(ip, now) {
      CleanupTakesNothing(l, ip, now);
    }
  }

  lemma {:induction false} CleanupInvisible(l: Limiter, m: Limiter, events: seq<Event>, from: Seconds)
    requires SameTokens(l, m, from) && InOrder(events, from) && Gain(l.rate, IDLE_LIMIT) >= l.burst as real
    ensures Decisions(l, events) == Decisions(m, Requests(events))
    decreases |events|
  {
    if events != [] {
      var e, rest := events[0], events[1..];
      SameTokensLater(l, m, from, e.at);
      match e {
        case Request(ip, at) =>
          SameAfterRequest(l, m, ip, at);
          CleanupInvisible(Next(l, e), Next(m, e), rest, at);
          assert Requests(events)[1..] == Requests(rest);
        case CleanupAt(at) =>
          SameAfterCleanup(l, m, at);
          CleanupInvisible(Next(l, e), m, rest, at);
      }
    }
  }

  // A client that spends its burst, idles, and comes back.

  function Repeated(ip: string, at: Seconds, n: nat): seq<Event> {
    if n == 0 then [] else [Request(ip, at)] + Repeated(ip, at, n - 1)
  }

  lemma {:induction false} RepeatedFacts(ip: string, at: Seconds, n: nat)
    ensures InOrder(Repeated(ip, at, n), at) && Requests(Repeated(ip, at, n)) == Repeated(ip, at, n)
    ensures EndOf(Repeated(ip, at, n), at) == at
  {
    if n > 0 {
      RepeatedFacts(ip, at, n - 1);
      assert Repeated(ip, at, n)[1..] == Repeated(ip, at, n - 1);
    }
  }

  lemma {:induction false} BurstAdmitted(l: Limiter, ip: string, at: Seconds, n: nat)
    requires l.ValidAt(at) && l.Tokens(ip, at) >= n as real
    ensures Admitted(l, Repeated(ip, at, n), ip) == n
    ensures After(l, Repeated(ip, at, n)).ValidAt(at)
    ensures forall other | other in After(l, Repeated(ip, at, n)).buckets :: other in l.buckets || other == ip
    ensures n > 0 ==>
      ip in After(l, Repeated(ip, at, n)).buckets && After(l, Repeated(ip, at, n)).buckets[ip].lastTime == at
    ensures After(l, Repeated(ip, at, n)).burst == l.burst && After(l, Repeated(ip, at, n)).rate == l.rate
    decreases n
  {
    if n > 0 {
      var e := Request(ip, at);
      assert Repeated(ip, at, n)[1..] == Repeated(ip, at, n - 1);
      NextValid(l, e, at);
      RequestTakesOne(l, ip, ip, at);
      BurstAdmitted(Next(l, e), ip, at, n - 1);
      if n == 1 {
        assert After(l, Repeated(ip, at, n)) == Next(l, e);
      }
    }
  }

  lemma {:induction false} AdmittedConcat(l: Limiter, a: seq<Event>, b: seq<Event>, ip: string)
    ensures Admitted(l, a + b, ip) == Admitted(l, a, ip) + Admitted(After(l, a), b, ip)
    decreases |a|
  {
    if a == [] {
      assert a + b == b;
    } else {
      assert (a + b)[1..] == a[1..] + b;
      AdmittedConcat(Next(l, a[0]), a[1..], b, ip);
    }
  }

  lemma {:induction false} InOrderConcat(a: seq<Event>, b: seq<Event>, from: Seconds)
    requires InOrder(a, from) && InOrder(b, EndOf(a, from))
    ensures InOrder(a + b, from)
  {
    if a == [] {
      assert a + b == b;
    } else {
      assert (a + b)[1..] == a[1..] + b;
      InOrderConcat(a[1..], b, a[0].at);
    }
  }

  lemma {:induction false} RequestsConcat(a: seq<Event>, b: seq<Event>)
    ensures Requests(a + b) == Requests(a) + Requests(b)
  {
    if a == [] {
      assert a + b == b;
    } else {
      assert (a + b)[1..] == a[1..] + b;
      RequestsConcat(a[1..], b);
    }
  }

  /** `burst` requests at once, a long pause, `burst` requests at once. */
  function SpendIdleSpend(burst: nat, pause: Seconds): seq<Event> {
    Repeated("c", 0.0, burst) + ([CleanupAt(pause)] + Repeated("c", pause, burst))
  }

  lemma SpendIdleSpendAllAdmitted(rate: real, burst: nat, pause: Seconds)
    requires rate > 0.0 && burst >= 1 && pause > IDLE_LIMIT
    ensures InOrder(SpendIdleSpend(burst, pause), 0.0)
    ensures EndOf(SpendIdleSpend(burst, pause), 0.0) == pause
    ensures Admitted(NewLimiter(rate, burst), SpendIdleSpend(burst, pause), "c") == 2 * burst
  {
    var l := NewLimiter(rate, burst);
    var first, second := Repeated("c", 0.0, burst), Repeated("c", pause, burst);
    RepeatedFacts("c", 0.0, burst);
    RepeatedFacts("c", pause, burst);
    assert ([CleanupAt(pause)] + second)[1..] == second;
    InOrderConcat(first, [CleanupAt(pause)] + second, 0.0);
    BurstAdmitted(l, "c", 0.0, burst);
    var spent := After(l, first);
    AdmittedConcat(l, first, [CleanupAt(pause)] + second, "c");
    var cleaned := Next(spent, CleanupAt(pause));
    assert spent.ValidAt(pause);
    NextValid(spent, CleanupAt(pause), pause);
    assert "c" !in cleaned.buckets;
    BurstAdmitted(cleaned, "c", pause, burst);
  }

  /** A pause long enough for a cleanup but too short for the bucket to fill up. */
  lemma PauseExists(rate: real, burst: nat) returns (pause: Seconds)
    requires rate > 0.0 && Gain(rate, IDLE_LIMIT) < burst as real
    ensures pause > IDLE_LIMIT && Gain(rate, pause) < burst as real
  {
    var gap := burst as real - Gain(rate, IDLE_LIMIT);
    pause := IDLE_LIMIT + gap / 2.0 / rate;
    assert gap / 2.0 / rate * rate == gap / 2.0;
    assert Gain(rate, pause) == Gain(rate, IDLE_LIMIT) + gap / 2.0;
  }

  /** The bound holds for every run, cleanups included, exactly when a bucket that has been idle long
      enough to be dropped is full. */
  lemma BoundHoldsIff(rate: real, burst: nat)
    requires rate > 0.0 && burst >= 1
    ensures (forall events, ip | InOrder(events, 0.0) ::
               Admitted(NewLimiter(rate, burst), events, ip) as real <= burst as real + Gain(rate, EndOf(events, 0.0)))
            <==> Gain(rate, IDLE_LIMIT) >= burst as real
  {
    var l := NewLimiter(rate, burst);
    if Gain(rate, IDLE_LIMIT) >= burst as real {
      forall events, ip | InOrder(events, 0.0)
        ensures Admitted(l, events, ip) as real <= burst as real + Gain(rate, EndOf(events, 0.0))
      {
        AdmittedBound(l, events, 0.0, ip);
      }
    } else {
      var pause := PauseExists(rate, burst);
      SpendIdleSpendAllAdmitted(rate, burst, pause);
      assert Admitted(l, SpendIdleSpend(burst, pause), "c") as real > burst as real + Gain(rate, pause);
    }
  }

  function TrueCount(bs: seq<bool>): nat {
    if bs == [] then 0 else (if bs[0] then 1 else 0) + TrueCount(bs[1..])
  }

  ghost predicate OnlyClient(events: seq<Event>, ip: string) {
    forall i | 0 <= i < |events| :: events[i].Request? ==> events[i].ip == ip
  }

  lemma {:induction false} AdmittedIsTrueCount(l: Limiter, events: seq<Event>, ip: string)
    requires OnlyClient(events, ip)
    ensures Admitted(l, events, ip) == TrueCount(Decisions(l, events))
    decreases |events|
  {
    if events != [] {
      AdmittedIsTrueCount(Next(l, events[0]), events[1..], ip);
    }
  }

  lemma {:induction false} RepeatedOnly(ip: string, at: Seconds, n: nat)
    ensures OnlyClient(Repeated(ip, at, n), ip)
  {
    if n > 0 {
      RepeatedOnly(ip, at, n - 1);
    }
  }

  lemma RequestsOfSpending(burst: nat, pause: Seconds)
    ensures Requests(SpendIdleSpend(burst, pause)) == Repeated("c", 0.0, burst) + Repeated("c", pause, burst)
  {
    var first, second := Repeated("c", 0.0, burst), Repeated("c", pause, burst);
    RepeatedFacts("c", 0.0, burst);
    RepeatedFacts("c", pause, burst);
    RequestsConcat(first, [CleanupAt(pause)] + second);
    assert ([CleanupAt(pause)] + second)[1..] == second;
  }

  lemma CleanupVisible(rate: real, burst: nat, pause: Seconds)
    requires rate > 0.0 && burst >= 1 && pause > IDLE_LIMIT && Gain(rate, pause) < burst as real
    ensures var events := SpendIdleSpend(burst, pause);
      Decisions(NewLimiter(rate, burst), events) != Decisions(NewLimiter(rate, burst), Requests(events))
  {
    var l, events := NewLimiter(rate, burst), SpendIdleSpend(burst, pause);
    var first, second := Repeated("c", 0.0, burst), Repeated("c", pause, burst);
    RepeatedFacts("c", 0.0, burst);
    RepeatedFacts("c", pause, burst);
    RepeatedOnly("c", 0.0, burst);
    RepeatedOnly("c", pause, burst);
    RequestsOfSpending(burst, pause);
    InOrderConcat(first, second, 0.0);
    RequestsConcat(first, second);
    AdmittedBound(l, first + second, 0.0, "c");
    SpendIdleSpendAllAdmitted(rate, burst, pause);
    AdmittedIsTrueCount(l, events, "c");
    AdmittedIsTrueCount(l, first + second, "c");
  }

  /** Interleaving cleanups anywhere in any run leaves every answer as it is, exactly when a bucket
      that has been idle long enough to be dropped is full. */
  lemma CleanupInvisibleIff(rate: real, burst: nat)
    requires rate > 0.0 && burst >= 1
    ensures (forall events | InOrder(events, 0.0) ::
               Decisions(NewLimiter(rate, burst), events) == Decisions(NewLimiter(rate, burst), Requests(events)))
            <==> Gain(rate, IDLE_LIMIT) >= burst as real
  {
    var l := NewLimiter(rate, burst);
    if Gain(rate, IDLE_LIMIT) >= burst as real {
      forall events | InOrder(events, 0.0) ensures Decisions(l, events) == Decisions(l, Requests(events)) {
        CleanupInvisible(l, l, events, 0.0);
      }
    } else {
      var pause := PauseExists(rate, burst);
      SpendIdleSpendAllAdmitted(rate, burst, pause);
      CleanupVisible(rate, burst, pause);
    }
  }

  /** The server's own limiter is in the good range unless it is set below one request in five
      minutes. */
  lemma ServerLimiterHarmlessIff(rate: real)
    requires rate > 0.0
    ensures ServerBurst(rate) >= 1
    ensures Gain(rate, IDLE_LIMIT) >= ServerBurst(rate) as real <==> rate >= 1.0 / 300.0
  {
  }

  // ----- who gets every request through -----

  /** When a client asks. */
  function TimesOf(events: seq<Event>, ip: string): seq<Seconds> {
    if events == [] then []
    else if events[0].Request? && events[0].ip == ip then [events[0].at] + TimesOf(events[1..], ip)
    else TimesOf(events[1..], ip)
  }

  /** No stretch of the requests has more than the burst and what accrues in its duration. */
  ghost predicate Conforms(rate: real, burst: real, times: seq<Seconds>) {
    forall i, j | 0 <= i <= j < |times| :: (j - i + 1) as real <= burst + Gain(rate, times[j] - times[i])
  }

  /** Starting with so many tokens, no front of the requests has more than these and what accrues until then. */
  ghost predicate Affords(rate: real, tokens: real, from: Seconds, times: seq<Seconds>) {
    forall j | 0 <= j < |times| :: (j + 1) as real <= tokens + Gain(rate, times[j] - from)
  }

  lemma {:induction false} AdmittedAtMostAll(l: Limiter, events: seq<Event>, ip: string)
    ensures Admitted(l, events, ip) <= |TimesOf(events, ip)|
    decreases |events|
  {
    if events != [] {
      AdmittedAtMostAll(Next(l, events[0]), events[1..], ip);
    }
  }

  lemma {:induction false} TimesNotBefore(events: seq<Event>, from: Seconds, ip: string)
    requires InOrder(events, from)
    ensures forall j | 0 <= j < |TimesOf(events, ip)| :: TimesOf(events, ip)[j] >= from
  {
    if events != [] {
      TimesNotBefore(events[1..], events[0].at, ip);
    }
  }

  function Capped(x: real, cap: real): real {
    if x > cap then cap else x
  }

  /** Time passes: what is affordable stays so, unless tokens are lost for want of room, and then the requests to
      come do not conform by themselves. */
  lemma AffordsLater(rate: real, burst: real, tokens: real, from: Seconds, at: Seconds, times: seq<Seconds>)
    requires rate > 0.0 && from <= at && forall j | 0 <= j < |times| :: times[j] >= at
    requires Conforms(rate, burst, times)
    ensures Affords(rate, tokens, from, times) <==>
      Affords(rate, Capped(tokens + Gain(rate, at - from), burst), at, times)
  {
    forall j | 0 <= j < |times|
      ensures (j + 1) as real <= tokens + Gain(rate, times[j] - from) <==>
        (j + 1) as real <= Capped(tokens + Gain(rate, at - from), burst) + Gain(rate, times[j] - at)
    {
      SplitTime(rate, at - from, times[j] - at);
      assert at - from + (times[j] - at) == times[j] - from;
      assert (j - 0 + 1) as real <= burst + Gain(rate, times[j] - times[0]);
      ScaleMono(rate, times[j] - times[0], times[j] - at);
    }
  }

  lemma AffordsRest(rate: real, burst: real, tokens: real, at: Seconds, times: seq<Seconds>)
    requires times != [] && times[0] == at && Affords(rate, tokens, at, times) && Conforms(rate, burst, times)
    ensures tokens >= 1.0 && Affords(rate, tokens - 1.0, at, times[1..]) && Conforms(rate, burst, times[1..])
  {
    var rest := times[1..];
    assert Gain(rate, at - at) == 0.0;
    assert (0 + 1) as real <= tokens + Gain(rate, times[0] - at);
    forall j | 0 <= j < |rest| ensures (j + 1) as real <= tokens - 1.0 + Gain(rate, rest[j] - at) {
      assert (j + 1 + 1) as real <= tokens + Gain(rate, times[j + 1] - at);
    }
    forall i, j | 0 <= i <= j < |rest| ensures (j - i + 1) as real <= burst + Gain(rate, rest[j] - rest[i]) {
      assert (j + 1 - (i + 1) + 1) as real <= burst + Gain(rate, times[j + 1] - times[i + 1]);
    }
  }

  lemma AffordsAll(rate: real, burst: real, tokens: real, at: Seconds, times: seq<Seconds>)
    requires times != [] && times[0] == at && 1.0 <= tokens <= burst
    requires Affords(rate, tokens - 1.0, at, times[1..]) && Conforms(rate, burst, times[1..])
    ensures Affords(rate, tokens, at, times) && Conforms(rate, burst, times)
  {
    var rest := times[1..];
    assert Gain(rate, at - at) == 0.0;
    forall j | 0 <= j < |times| ensures (j + 1) as real <= tokens + Gain(rate, times[j] - at) {
      if j > 0 {
        assert (j - 1 + 1) as real <= tokens - 1.0 + Gain(rate, rest[j - 1] - at);
      }
    }
    forall i, j | 0 <= i <= j < |times| ensures (j - i + 1) as real <= burst + Gain(rate, times[j] - times[i]) {
      if i > 0 {
        assert (j - 1 - (i - 1) + 1) as real <= burst + Gain(rate, rest[j - 1] - rest[i - 1]);
      } else {
        assert (j + 1) as real <= tokens + Gain(rate, times[j] - at);
      }
    }
  }

  /** A request takes a token, and the rest must conform and be affordable with what is left. */
  lemma AffordsNext(rate: real, burst: real, tokens: real, at: Seconds, times: seq<Seconds>)
    requires tokens <= burst && times != [] && times[0] == at
    ensures Affords(rate, tokens, at, times) && Conforms(rate, burst, times) <==>
      tokens >= 1.0 && Affords(rate, tokens - 1.0, at, times[1..]) && Conforms(rate, burst, times[1..])
  {
    if Affords(rate, tokens, at, times) && Conforms(rate, burst, times) {
      AffordsRest(rate, burst, tokens, at, times);
    }
    if tokens >= 1.0 && Affords(rate, tokens - 1.0, at, times[1..]) && Conforms(rate, burst, times[1..]) {
      AffordsAll(rate, burst, tokens, at, times);
    }
  }

  /** In any run, others' requests and harmless cleanups among it: all requests of a client get through exactly when
      they conform and the tokens there are at the start suffice. */
  lemma {:induction false} AllAdmittedFromIff(l: Limiter, events: seq<Event>, from: Seconds, ip: string)
    requires l.ValidAt(from) && InOrder(events, from) && CleanupHarmless(l, events)
    ensures var times := TimesOf(events, ip);
      Admitted(l, events, ip) == |times| <==>
        Affords(l.rate, l.Tokens(ip, from), from, times) && Conforms(l.rate, l.burst as real, times)
    decreases |events|
  {
    if events != [] {
      var e, rest := events[0], events[1..];
      var l' := Next(l, e);
      NextValid(l, e, from);
      HarmlessRest(l, events);
      AllAdmittedFromIff(l', rest, e.at, ip);
      AdmittedAtMostAll(l', rest, ip);
      TimesNotBefore(rest, e.at, ip);
      AllAdmittedStep(l, e, rest, from, ip);
    }
  }

  lemma AllAdmittedStep(l: Limiter, e: Event, rest: seq<Event>, from: Seconds, ip: string)
    requires l.ValidAt(from) && from <= e.at && forall j | 0 <= j < |TimesOf(rest, ip)| :: TimesOf(rest, ip)[j] >= e.at
    requires e.Request? || Gain(l.rate, IDLE_LIMIT) >= l.burst as real
    ensures var burst := l.burst as real; var tokens := l.Tokens(ip, from); var later := Next(l, e).Tokens(ip, e.at);
      var times, times' := TimesOf([e] + rest, ip), TimesOf(rest, ip);
      Affords(l.rate, tokens, from, times) && Conforms(l.rate, burst, times) <==>
        && (e.Request? && e.ip == ip ==> l.Allows(ip, e.at))
        && Affords(l.rate, later, e.at, times') && Conforms(l.rate, burst, times')
  {
    var burst, times := l.burst as real, TimesOf([e] + rest, ip);
    assert ([e] + rest)[1..] == rest;
    assert times == if e.Request? && e.ip == ip then [e.at] + TimesOf(rest, ip) else TimesOf(rest, ip);
    assert l.ValidAt(e.at);
    TokensLater(l, ip, from, e.at);
    if Conforms(l.rate, burst, times) {
      AffordsLater(l.rate, burst, l.Tokens(ip, from), from, e.at, times);
    }
    if e.Request? && e.ip == ip {
      OwnRequest(l, ip, e.at, TimesOf(rest, ip));
    } else {
      OthersEvent(l, e, ip);
    }
  }

  lemma OwnRequest(l: Limiter, ip: string, at: Seconds, times: seq<Seconds>)
    requires l.ValidAt(at)
    ensures var burst := l.burst as real; var later := l.AfterRequest(ip, at).Tokens(ip, at);
      Affords(l.rate, l.Tokens(ip, at), at, [at] + times) && Conforms(l.rate, burst, [at] + times) <==>
        l.Allows(ip, at) && Affords(l.rate, later, at, times) && Conforms(l.rate, burst, times)
  {
    TokensInRange(l, ip, at, at);
    RequestTakesOne(l, ip, ip, at);
    assert ([at] + times)[1..] == times;
    AffordsNext(l.rate, l.burst as real, l.Tokens(ip, at), at, [at] + times);
  }

  lemma OthersEvent(l: Limiter, e: Event, ip: string)
    requires l.ValidAt(e.at) && !(e.Request? && e.ip == ip)
    requires e.Request? || Gain(l.rate, IDLE_LIMIT) >= l.burst as real
    ensures Next(l, e).Tokens(ip, e.at) == l.Tokens(ip, e.at)
  {
    match e {
      case Request(other, at) => RequestTakesOne(l, other, ip, at);
      case CleanupAt(at) => CleanupTakesNothing(l, ip, at);
    }
  }

  /** The limiter holds back no client that keeps to its rate: in any run from a new limiter, as long as cleaning up
      is harmless, all requests of a client get through exactly when no stretch of them has more than the burst and
      what accrues in its duration. */
  lemma AllAdmittedIff(rate: real, burst: nat, events: seq<Event>, from: Seconds, ip: string)
    requires rate > 0.0 && burst >= 1 && InOrder(events, from)
    requires Gain(rate, IDLE_LIMIT) >= burst as real || Requests(events) == events
    ensures Admitted(NewLimiter(rate, burst), events, ip) == |TimesOf(events, ip)| <==>
      Conforms(rate, burst as real, TimesOf(events, ip))
  {
    var times := TimesOf(events, ip);
    TimesNotBefore(events, from, ip);
    AllAdmittedFromIff(NewLimiter(rate, burst), events, from, ip);
    if Conforms(rate, burst as real, times) {
      forall j | 0 <= j < |times| ensures (j + 1) as real <= burst as real + Gain(rate, times[j] - from) {
        assert (j - 0 + 1) as real <= burst as real + Gain(rate, times[j] - times[0]);
        ScaleMono(rate, times[j] - times[0], times[j] - from);
      }
    }
  }

  lemma {:induction false} RepeatedTimes(ip: string, at: Seconds, n: nat)
    ensures |TimesOf(Repeated(ip, at, n), ip)| == n
    ensures forall j | 0 <= j < n :: TimesOf(Repeated(ip, at, n), ip)[j] == at
  {
    if n > 0 {
      assert Repeated(ip, at, n)[1..] == Repeated(ip, at, n - 1);
      RepeatedTimes(ip, at, n - 1);
    }
  }

  lemma ServerBurstIff(rate: real, n: nat)
    requires rate > 0.0
    ensures ServerBurst(rate) >= 1 && (n <= ServerBurst(rate) <==> n <= 1 || n as real <= rate * 2.0)
  {
  }

  /** The server lets through at once what its rate allows in two seconds, and at least one request. */
  lemma ServerLetsThroughIff(rate: real, ip: string, at: Seconds, n: nat)
    requires rate > 0.0
    ensures Admitted(NewLimiter(rate, ServerBurst(rate)), Repeated(ip, at, n), ip) == n <==>
      n <= 1 || n as real <= rate * 2.0
  {
    var burst, events := ServerBurst(rate), Repeated(ip, at, n);
    ServerBurstIff(rate, n);
    RepeatedFacts(ip, at, n);
    RepeatedTimes(ip, at, n);
    AllAdmittedIff(rate, burst, events, at, ip);
    var times := TimesOf(events, ip);
    assert Gain(rate, at - at) == 0.0;
    if n > burst {
      assert (n - 1 - 0 + 1) as real > burst as real + Gain(rate, times[n - 1] - times[0]);
    } else {
      forall i, j | 0 <= i <= j < n ensures (j - i + 1) as real <= burst as real + Gain(rate, times[j] - times[i]) {
      }
    }
  }
}
