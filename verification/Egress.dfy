/** The way out to a provider: circuit breaker, retry loop, and the client that joins them. */
module Egress {
  import opened Wrappers

  // ---------- circuit breaker ----------

  datatype Event = Failure(at: int) | Success

  /** The failures since the last success. */
  function Streak(history: seq<Event>): seq<int> {
    if history == [] then []
    else match history[|history| - 1]
      case Success => []
      case Failure(at) => Streak(history[..|history| - 1]) + [at]
  }

  /** They are what follows the last success in the history. */
  lemma {:induction false} StreakIsSuffix(history: seq<Event>, k: nat)
    requires k <= |history| && (k == 0 || history[k - 1].Success?)
    requires forall i :: k <= i < |history| ==> history[i].Failure?
    ensures |Streak(history)| == |history| - k
    ensures forall i :: 0 <= i < |history| - k ==> Streak(history)[i] == history[k + i].at
    decreases |history|
  {
    if k < |history| {
      StreakIsSuffix(history[..|history| - 1], k);
    }
  }

  /** The breaker refuses calls at time t. */
  predicate Open(history: seq<Event>, maxFailures: int, cooldown: int, t: int) {
    var s := Streak(history);
    |s| > 0 && |s| >= maxFailures && t < s[|s| - 1] + cooldown
  }

  class CircuitBreaker {
    const maxFailures: int
    const cooldown: int
    var failures: int
    var deadline: int
    ghost var history: seq<Event>

    ghost predicate Valid()
      reads this
    {
      var s := Streak(history);
      failures == |s| && deadline == if |s| > 0 && |s| >= maxFailures then s[|s| - 1] + cooldown else 0
    }

    constructor (maxFailures: int, cooldown: int)
      ensures Valid() && history == [] && this.maxFailures == maxFailures && this.cooldown == cooldown
    {
      this.maxFailures, this.cooldown, failures, deadline, history := maxFailures, cooldown, 0, 0, [];
    }

    /** At every time from the epoch on, refused exactly when enough failures in a row have occurred
        and the cooldown after the last of them is not over. There is no trial call in between: once
        the cooldown is over every call is let through, and one more failure closes the door again. */
    method Allow(now: int) returns (ok: bool)
      requires Valid()
      ensures now >= 0 ==> ok == !Open(history, maxFailures, cooldown, now)
    {
      if deadline == 0 {
        return true;
      }
      return now >= deadline;
    }

    method Fail(now: int)
      requires Valid()
      modifies this
      ensures Valid() && history == old(history) + [Failure(now)]
    {
      history := history + [Failure(now)];
      failures := failures + 1;
      if failures >= maxFailures {
        deadline := now + cooldown;
      }
    }

    method Reset()
      requires Valid()
      modifies this
      ensures Valid() && history == old(history) + [Success]
    {
      history := history + [Success];
      failures, deadline := 0, 0;
    }
  }

  /** After enough failures in a row every further one opens the breaker for a whole cooldown, no
      matter how long it had been since the one before. */
  lemma ReopensAtOnce(history: seq<Event>, at: int, maxFailures: int, cooldown: int, t: int)
    requires |Streak(history)| + 1 >= maxFailures
    ensures Open(history + [Failure(at)], maxFailures, cooldown, t) <==> t < at + cooldown
    ensures !Open(history + [Success], maxFailures, cooldown, t)
  {
  }

  // ---------- retry ----------

  datatype Error =
    | NetError
    | ConnectionRefused
    | OtherError
    | ContextDone
    | StatusError(status: int)
    | BreakerOpen
    | BadRequest
    | BadBody
    | BadStream

  /** How one round trip ends. */
  datatype Outcome = Failed(error: Error) | Responded(status: int)

  /** What the retry loop returns; `Nothing` would be neither response nor error. */
  datatype Reply = Response(status: int) | Error(error: Error) | Nothing

  datatype Config = Config(maxRetries: int, retryOn5xx: bool)

  predicate Retriable(o: Outcome, isGet: bool, retryOn5xx: bool) {
    match o
    case Failed(e) => e.NetError? || e.ConnectionRefused?
    case Responded(status) => status >= 500 && (isGet || retryOn5xx)
  }

  function Attempts(maxRetries: int): (n: nat)
    ensures n >= 1
  {
    1 + if maxRetries < 0 then 0 else maxRetries
  }

  /** How a retriable outcome is reported when there are no attempts left. */
  function Exhausted(o: Outcome): Reply {
    match o
    case Failed(e) => Error(e)
    case Responded(status) => Error(StatusError(status))
  }

  function Direct(o: Outcome): Reply {
    match o
    case Failed(e) => Error(e)
    case Responded(status) => Response(status)
  }

  /** The loop made `tries` attempts: all but the last were worth retrying and the context was alive
      before each retry; and it did not go on because the last was not worth retrying, or no attempt
      was left, or the context ended. */
  ghost predicate Stops(cfg: Config, isGet: bool, outcome: nat -> Outcome, ended: nat -> bool, tries: nat) {
    1 <= tries <= Attempts(cfg.maxRetries) &&
    (forall k :: 0 <= k < tries - 1 ==> Retriable(outcome(k), isGet, cfg.retryOn5xx)) &&
    (forall k :: 1 <= k < tries ==> !ended(k)) &&
    (tries < Attempts(cfg.maxRetries) && Retriable(outcome(tries - 1), isGet, cfg.retryOn5xx) ==> ended(tries))
  }

  lemma StopsOnce(cfg: Config, isGet: bool, outcome: nat -> Outcome, ended: nat -> bool, m: nat, n: nat)
    requires Stops(cfg, isGet, outcome, ended, m) && Stops(cfg, isGet, outcome, ended, n)
    ensures m == n
  {
  }

  /** What is tried again: a failure of the network or a refused connection; an answer of the server
      class only to a GET or when configured. */
  predicate WorthIt(o: Outcome, isGet: bool, cfg: Config) {
    o == Failed(NetError) || o == Failed(ConnectionRefused) ||
    (o.Responded? && o.status >= 500 && (isGet || cfg.retryOn5xx))
  }

  /** `outcome(k)` is what the k-th round trip brings, `ended(k)` says that the context has ended
      before or during the wait for it. */
  method DoWithRetry(cfg: Config, isGet: bool, outcome: nat -> Outcome, ended: nat -> bool)
    returns (r: Reply, tries: nat)
    ensures Stops(cfg, isGet, outcome, ended, tries)
    ensures forall k :: 0 <= k < tries - 1 ==> WorthIt(outcome(k), isGet, cfg)
    ensures tries < Attempts(cfg.maxRetries) && WorthIt(outcome(tries - 1), isGet, cfg) ==> ended(tries)
    ensures tries <= (if cfg.maxRetries > 0 then cfg.maxRetries + 1 else 1)
    ensures match outcome(tries - 1)
      case Failed(e) => r == Error(e) || (r == Error(ContextDone) && WorthIt(outcome(tries - 1), isGet, cfg))
      case Responded(status) =>
        if !(status >= 500 && (isGet || cfg.retryOn5xx)) then r == Response(status)
        else r == Error(StatusError(status)) || (r == Error(ContextDone) && tries < Attempts(cfg.maxRetries))
    ensures var last := outcome(tries - 1);
      r == if !Retriable(last, isGet, cfg.retryOn5xx) then Direct(last)
           else if tries < Attempts(cfg.maxRetries) then Error(ContextDone)
           else Exhausted(last)
    ensures r != Nothing
  {
    var lastErr: Option<Error> := None;
    var maxRetries := if cfg.maxRetries < 0 then 0 else cfg.maxRetries;
    tries := 0;
    var attempt := 0;
    while attempt <= maxRetries
      invariant 0 <= attempt <= maxRetries && tries == attempt
      invariant forall k :: 0 <= k < attempt ==> Retriable(outcome(k), isGet, cfg.retryOn5xx)
      invariant forall k :: 1 <= k < attempt ==> !ended(k)
    {
      if attempt > 0 {
        if ended(attempt) {
          return Error(ContextDone), tries;
        }
      }
      var o := outcome(attempt);
      tries := tries + 1;
      match o {
        case Failed(err) =>
          if attempt < maxRetries && Retriable(o, isGet, cfg.retryOn5xx) {
            lastErr := Some(err);
          } else {
            return Error(err), tries;
          }
        case Responded(status) =>
          if status >= 500 {
            if Retriable(o, isGet, cfg.retryOn5xx) {
              if attempt < maxRetries {
                lastErr := Some(StatusError(status));
              } else {
                return Error(StatusError(status)), tries;
              }
            } else {
              return Response(status), tries;
            }
          } else {
            return Response(status), tries;
          }
      }
      attempt := attempt + 1;
    }
    r := match lastErr case None => Nothing case Some(err) => Error(err);
  }

  // ---------- the wait before a retry ----------

  function Pow2(n: nat): nat {
    if n == 0 then 1 else 2 * Pow2(n - 1)
  }

  const TWO63 := 0x8000_0000_0000_0000

  /** 64-bit two's complement. */
  function Wrap(x: int): (w: int)
    ensures -TWO63 <= w < TWO63 && (-TWO63 <= x < TWO63 ==> w == x)
  {
    (x + TWO63) % (2 * TWO63) - TWO63
  }

  function Window(attempt: nat, base: int): int {
    Wrap(base * Wrap(if attempt < 64 then Pow2(attempt) else 0))
  }

  /** `draw` is a number from 0 up to, not including, its argument, which must be positive. */
  function Backoff(attempt: nat, base: int, draw: int): int
    requires Window(attempt, base) > 0 ==> 0 <= draw < Window(attempt, base)
  {
    if Window(attempt, base) <= 0 then base else draw
  }

  lemma {:induction false} Pow2Positive(n: nat)
    ensures Pow2(n) >= 1
  {
    if n > 0 {
      Pow2Positive(n - 1);
    }
  }

  /** Full jitter: the wait is below base * 2^attempt as long as that fits into 64 bits; a base of
      zero or less is itself the wait then; and beyond that no wait is negative unless it is the base. */
  lemma BackoffWindow(attempt: nat, base: int, draw: int)
    requires -TWO63 <= base < TWO63
    requires Window(attempt, base) > 0 ==> 0 <= draw < Window(attempt, base)
    ensures var wait := Backoff(attempt, base, draw);
      (wait == base || (wait == draw && 0 <= draw)) && wait < TWO63 &&
      (attempt < 63 && -TWO63 <= base * Pow2(attempt) < TWO63 ==>
        Window(attempt, base) == base * Pow2(attempt) &&
        if base > 0 then 0 <= wait < base * Pow2(attempt) else wait == base)
  {
    Pow2Positive(attempt);
    if attempt < 63 && base != 0 {
      Pow2Fits(attempt);
      if base > 0 {
        AtLeast(base, Pow2(attempt));
      } else {
        AtLeast(-base, Pow2(attempt));
        assert base * Pow2(attempt) == -((-base) * Pow2(attempt));
      }
    }
  }

  lemma {:induction false} Pow2Fits(n: nat)
    requires n < 63
    ensures Pow2(n) <= 0x4000_0000_0000_0000 && Pow2(n) * Pow2(62 - n) == 0x4000_0000_0000_0000
  {
    Pow2Halves(n, 62 - n);
    Pow2Positive(62 - n);
    Pow2At62();
    AtLeast(Pow2(62 - n), Pow2(n));
  }

  lemma {:induction false} Pow2Halves(m: nat, n: nat)
    ensures Pow2(m) * Pow2(n) == Pow2(m + n)
  {
    if m > 0 {
      Pow2Halves(m - 1, n);
      assert Pow2(m) * Pow2(n) == 2 * (Pow2(m - 1) * Pow2(n));
    }
  }

  lemma Pow2Step(m: nat, n: nat, x: nat, y: nat)
    requires Pow2(m) == x && Pow2(n) == y
    ensures Pow2(m + n) == x * y
  {
    Pow2Halves(m, n);
  }

  lemma Pow2At62()
    ensures Pow2(62) == 0x4000_0000_0000_0000
  {
    Pow2Step(2, 2, 4, 4);
    Pow2Step(4, 4, 16, 16);
    Pow2Step(8, 8, 0x100, 0x100);
    Pow2Step(16, 16, 0x1_0000, 0x1_0000);
    Pow2Step(16, 8, 0x1_0000, 0x100);
    Pow2Step(24, 4, 0x100_0000, 16);
    Pow2Step(28, 2, 0x1000_0000, 4);
    Pow2Step(32, 30, 0x1_0000_0000, 0x4000_0000);
  }

  /** From attempt 63 on all bits but at most the sign are shifted out, and the wait is the base. */
  lemma BackoffEnds(attempt: nat, base: int, draw: int)
    requires -TWO63 <= base < TWO63 && attempt >= 63
    ensures Window(attempt, base) <= 0 && Backoff(attempt, base, draw) == base
  {
    if attempt == 63 {
      ShiftedOut(base);
    }
  }

  lemma ShiftedOut(base: int)
    ensures Pow2(63) == TWO63 && Wrap(base * Wrap(Pow2(63))) <= 0
  {
    Pow2At62();
    var x := base * -TWO63 + TWO63;
    if base % 2 == 0 {
      assert x == 2 * TWO63 * (-(base / 2)) + TWO63;
      Remainder(-(base / 2), TWO63, x);
    } else {
      assert x == 2 * TWO63 * (-(base / 2)) + 0;
      Remainder(-(base / 2), 0, x);
    }
  }

  lemma Remainder(q: int, r: int, x: int)
    requires x == 2 * TWO63 * q + r && 0 <= r < 2 * TWO63
    ensures x % (2 * TWO63) == r
  {
  }

  lemma AtLeast(a: int, b: int)
    requires a > 0 && b > 0
    ensures a * b >= b
  {
  }

  // ---------- client ----------

  /** The error of a call without an answer: the last failure or server error, or that the context ended
      while attempts were left. */
  predicate Unanswered(r: Reply, last: Outcome, left: bool) {
    (match last case Failed(e) => r == Error(e) case Responded(status) => r == Error(StatusError(status))) ||
    (left && r == Error(ContextDone))
  }

  class Client {
    const cfg: Config
    const cb: CircuitBreaker?

    constructor (cfg: Config, cb: CircuitBreaker?)
      ensures this.cfg == cfg && this.cb == cb
    {
      this.cfg, this.cb := cfg, cb;
    }

    /** One call: refused without a round trip while the breaker is open; otherwise, if the request
        can be built, exactly one event goes to the breaker however many attempts were made. Any
        response at all counts as a success, also one with a server error that is not retried, and
        also one whose body cannot be read. */
    method Call(buildable: bool, isGet: bool, outcome: nat -> Outcome, ended: nat -> bool, readable: bool,
                before: int, after: int)
      returns (r: Reply, tries: nat)
      requires cb != null ==> cb.Valid()
      requires before >= 0
      modifies cb
      ensures cb != null ==> cb.Valid()
      ensures cb != null && old(Open(cb.history, cb.maxFailures, cb.cooldown, before)) ==>
              r == Error(BreakerOpen) && tries == 0 && cb.history == old(cb.history)
      ensures cb == null || !old(Open(cb.history, cb.maxFailures, cb.cooldown, before)) ==>
              if !buildable then r == Error(BadRequest) && tries == 0 && (cb != null ==> cb.history == old(cb.history))
              else
                Stops(cfg, isGet, outcome, ended, tries) &&
                var answered := outcome(tries - 1).Responded? && !Retriable(outcome(tries - 1), isGet, cfg.retryOn5xx);
                (r.Response? <==> answered && readable) && (r.Response? ==> r.status == outcome(tries - 1).status) &&
                (answered && !readable ==> r == Error(BadBody)) &&
                (!answered ==> Unanswered(r, outcome(tries - 1), tries < Attempts(cfg.maxRetries))) &&
                (cb != null ==> cb.history == old(cb.history) + [if answered then Success else Failure(after)])
      ensures r != Nothing
    {
      if cb != null {
        var ok := cb.Allow(before);
        if !ok {
          return Error(BreakerOpen), 0;
        }
      }
      if !buildable {
        return Error(BadRequest), 0;
      }
      r, tries := DoWithRetry(cfg, isGet, outcome, ended);
      if !r.Response? {
        if cb != null {
          cb.Fail(after);
        }
        return;
      }
      if cb != null {
        cb.Reset();
      }
      if !readable {
        return Error(BadBody), tries;
      }
    }

    /** A stream asks the breaker but tells it nothing. `eventStream` says that the response has the
        right content type. */
    method Stream(buildable: bool, isGet: bool, outcome: nat -> Outcome, ended: nat -> bool, eventStream: bool,
                  before: int)
      returns (r: Reply, tries: nat)
      requires cb != null ==> cb.Valid()
      requires before >= 0
      ensures cb != null && Open(cb.history, cb.maxFailures, cb.cooldown, before) ==>
              r == Error(BreakerOpen) && tries == 0
      ensures cb == null || !Open(cb.history, cb.maxFailures, cb.cooldown, before) ==>
              if !buildable then r == Error(BadRequest) && tries == 0
              else
                Stops(cfg, isGet, outcome, ended, tries) &&
                (r.Response? <==> outcome(tries - 1) == Responded(200) && eventStream) &&
                (r.Response? ==> r.status == 200) &&
                var answered := outcome(tries - 1).Responded? && !Retriable(outcome(tries - 1), isGet, cfg.retryOn5xx);
                if answered then r.Response? || r == Error(BadStream)
                else Unanswered(r, outcome(tries - 1), tries < Attempts(cfg.maxRetries))
      ensures r != Nothing
    {
      if cb != null {
        var ok := cb.Allow(before);
        if !ok {
          return Error(BreakerOpen), 0;
        }
      }
      if !buildable {
        return Error(BadRequest), 0;
      }
      r, tries := DoWithRetry(cfg, isGet, outcome, ended);
      if r.Response? && (!eventStream || r.status != 200) {
        return Error(BadStream), tries;
      }
    }
  }
}
