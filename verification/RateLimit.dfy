/** Sliding-window rate limiter: the stored script over a sorted set of request times. */
module RateLimit {
  import opened Wrappers
  import opened Folding

  /** A recorded request: its time in milliseconds and whether it was reported as allowed. */
  datatype Call = Call(time: int, allowed: bool)

  /** Recorded requests later than `cutoff`; times never decrease, so they are a suffix. */
  function Live(h: seq<Call>, cutoff: int): seq<Call> {
    if h == [] || h[0].time > cutoff then h else Live(h[1..], cutoff)
  }

  lemma {:induction false} LiveIsSuffix(h: seq<Call>, cutoff: int)
    ensures var r := Live(h, cutoff);
      |r| <= |h| && r == h[|h| - |r|..] && (r != [] ==> r[0].time > cutoff) &&
      (|r| < |h| ==> h[|h| - |r| - 1].time <= cutoff)
  {
    if h != [] && h[0].time <= cutoff {
      LiveIsSuffix(h[1..], cutoff);
    }
  }

  predicate Sorted(h: seq<Call>) {
    forall i, j :: 0 <= i < j < |h| ==> h[i].time <= h[j].time
  }

  /** Requests in the half-open interval `[lo, hi)`, all of them or only the allowed ones. */
  function InWindow(h: seq<Call>, lo: int, hi: int, onlyAllowed: bool): nat {
    if h == [] then 0
    else
      var n := |h| - 1;
      InWindow(h[..n], lo, hi, onlyAllowed) +
        (if lo <= h[n].time < hi && (onlyAllowed ==> h[n].allowed) then 1 else 0)
  }

  /** The calls in the half-open interval `[lo, hi)` that were answered with true. */
  function LetThrough(times: seq<int>, answers: seq<bool>, lo: int, hi: int): nat
    requires |times| == |answers|
  {
    if times == [] then 0
    else
      var n := |times| - 1;
      LetThrough(times[..n], answers[..n], lo, hi) + (if lo <= times[n] < hi && answers[n] then 1 else 0)
  }

  /** Each request was recorded while fewer than `limit` were live, and allowed while fewer than
      `limit - 1` were. */
  ghost predicate Honest(h: seq<Call>, limit: int, window: int) {
    Sorted(h) && forall i :: 0 <= i < |h| ==> HonestAt(h, limit, window, i)
  }

  predicate HonestAt(h: seq<Call>, limit: int, window: int, i: nat)
    requires i < |h|
  {
    var live := |Live(h[..i], h[i].time - window)|;
    live < limit && (h[i].allowed <==> live < limit - 1)
  }

  lemma HonestPrefix(h: seq<Call>, limit: int, window: int, n: nat)
    requires Honest(h, limit, window) && n <= |h|
    ensures Honest(h[..n], limit, window)
  {
    forall i | 0 <= i < n ensures HonestAt(h[..n], limit, window, i) {
      assert HonestAt(h, limit, window, i) && h[..n][..i] == h[..i];
    }
  }

  lemma {:induction false} LiveCovers(h: seq<Call>, cutoff: int, lo: int, hi: int, onlyAllowed: bool)
    requires Sorted(h) && lo > cutoff
    ensures InWindow(h, lo, hi, onlyAllowed) <= |Live(h, cutoff)|
  {
    if h != [] {
      var n := |h| - 1;
      LiveCovers(h[..n], cutoff, lo, hi, onlyAllowed);
      assert h == h[..n] + [h[n]];
      LiveExtends(h[..n], h[n], cutoff);
      if h[n].time <= cutoff {
        NoneLive(h[..n], cutoff);
      }
    }
  }

  lemma {:induction false} LiveExtends(h: seq<Call>, c: Call, cutoff: int)
    requires Sorted(h + [c])
    ensures Live(h + [c], cutoff) == if c.time > cutoff then Live(h, cutoff) + [c] else []
  {
    if h == [] {
    } else {
      var hc := h + [c];
      assert hc[0] == h[0] && hc[1..] == h[1..] + [c] && hc[|h|] == c;
      if h[0].time <= cutoff {
        assert Sorted(h[1..] + [c]) by {
          forall i, j | 0 <= i < j < |hc[1..]| ensures hc[1..][i].time <= hc[1..][j].time {
            assert hc[i + 1].time <= hc[j + 1].time;
          }
        }
        LiveExtends(h[1..], c, cutoff);
      } else {
        assert hc[0].time <= hc[|h|].time;
      }
    }
  }

  /** No interval of one window length holds more than `limit` recorded requests, nor more than
      `limit - 1` allowed ones. */
  lemma {:induction false} WindowBound(h: seq<Call>, limit: int, window: int, x: int)
    requires Honest(h, limit, window) && limit >= 1
    ensures InWindow(h, x, x + window, false) <= limit
    ensures InWindow(h, x, x + window, true) <= limit - 1
    decreases |h|
  {
    if h != [] {
      var n := |h| - 1;
      HonestPrefix(h, limit, window, n);
      WindowBound(h[..n], limit, window, x);
      assert HonestAt(h, limit, window, n);
      if x <= h[n].time < x + window {
        LiveCovers(h[..n], h[n].time - window, x, x + window, false);
        LiveCovers(h[..n], h[n].time - window, x, x + window, true);
      }
    }
  }

  // ---------- when a rejected caller may come back ----------

  lemma {:induction false} LiveLater(h: seq<Call>, a: int, b: int)
    requires Sorted(h) && a <= b
    ensures Live(h, b) == Live(Live(h, a), b)
  {
    if h != [] && h[0].time <= a {
      LiveLater(h[1..], a, b);
    }
  }

  lemma {:induction false} LiveCount(h: seq<Call>, cutoff: int, hi: int)
    requires Sorted(h) && forall i :: 0 <= i < |h| ==> h[i].time < hi
    ensures InWindow(h, cutoff + 1, hi, false) == |Live(h, cutoff)|
  {
    if h != [] {
      var n := |h| - 1;
      LiveCount(h[..n], cutoff, hi);
      assert h == h[..n] + [h[n]];
      LiveExtends(h[..n], h[n], cutoff);
      if h[n].time <= cutoff {
        NoneLive(h[..n], cutoff);
      }
    }
  }

  lemma {:induction false} NoneLive(h: seq<Call>, cutoff: int)
    requires forall i :: 0 <= i < |h| ==> h[i].time <= cutoff
    ensures Live(h, cutoff) == []
  {
    if h != [] {
      NoneLive(h[1..], cutoff);
    }
  }

  /** A lone call at `t` would be recorded. */
  predicate Recordable(h: seq<Call>, t: int, limit: int, window: int) {
    |Live(h, t - window)| < limit
  }

  /** With nothing recorded in between, the first instant that is recorded after a rejection is
      exactly the reported reset time: the oldest live request plus one window. */
  lemma ResetIsExact(h: seq<Call>, limit: int, window: int, now: int, t: int)
    requires Honest(h, limit, window) && limit >= 1 && now <= t
    requires forall i :: 0 <= i < |h| ==> h[i].time <= now
    requires |Live(h, now - window)| >= limit
    ensures Recordable(h, t, limit, window) <==> t >= Live(h, now - window)[0].time + window
  {
    var live := Live(h, now - window);
    LiveCount(h, now - window, now + 1);
    WindowBound(h, limit, window, now - window + 1);
    assert |live| == limit;
    LiveLater(h, now - window, t - window);
    var later := Live(live, t - window);
    if live[0].time <= t - window {
      assert later == Live(live[1..], t - window);
      LiveIsSuffix(live[1..], t - window);
    } else {
      assert later == live;
    }
  }

  // ---------- the stored script ----------

  /** The stored set is a suffix of all recorded requests, what it lacks is no longer live, and
      the key expires when its last request does. */
  ghost predicate Coherent(entries: seq<Call>, expireAt: Option<int>, h: seq<Call>, clock: int, window: int) {
    var k := |h| - |entries|;
    k >= 0 && entries == h[k..] &&
    (k > 0 ==> h[k - 1].time <= clock - window) &&
    (entries != [] ==> expireAt == Some(h[|h| - 1].time + window)) &&
    forall i :: 0 <= i < |h| ==> h[i].time <= clock
  }

  /** Contents of the set when the script runs: empty if the key has expired. */
  function Unexpired(entries: seq<Call>, expireAt: Option<int>, now: int): seq<Call> {
    if expireAt.Some? && now >= expireAt.value then [] else entries
  }

  /** Expiry never changes an outcome: purging leaves exactly the live requests either way. */
  lemma ExpiryUnseen(entries: seq<Call>, expireAt: Option<int>, h: seq<Call>, clock: int, window: int, now: int)
    requires Sorted(h) && Coherent(entries, expireAt, h, clock, window) && clock <= now
    ensures Live(Unexpired(entries, expireAt, now), now - window) == Live(h, now - window)
    ensures Live(entries, now - window) == Live(h, now - window)
  {
    SuffixLive(h, |h| - |entries|, now - window);
    if entries != [] && now >= expireAt.value {
      AllExpired(h, now - window);
    }
  }

  lemma PurgedCoherent(h: seq<Call>, expireAt: Option<int>, window: int, now: int)
    requires forall i :: 0 <= i < |h| ==> h[i].time <= now
    requires Live(h, now - window) != [] ==> expireAt == Some(h[|h| - 1].time + window)
    ensures Coherent(Live(h, now - window), expireAt, h, now, window)
  {
    LiveIsSuffix(h, now - window);
    SuffixCoherent(Live(h, now - window), expireAt, h, now, window);
  }

  lemma SuffixCoherent(entries: seq<Call>, expireAt: Option<int>, h: seq<Call>, clock: int, window: int)
    requires |entries| <= |h| && entries == h[|h| - |entries|..]
    requires |entries| < |h| ==> h[|h| - |entries| - 1].time <= clock - window
    requires entries != [] ==> expireAt == Some(h[|h| - 1].time + window)
    requires forall i :: 0 <= i < |h| ==> h[i].time <= clock
    ensures Coherent(entries, expireAt, h, clock, window)
  {
  }

  lemma RecordedCoherent(entries: seq<Call>, expireAt: Option<int>, h: seq<Call>, c: Call, window: int)
    requires Coherent(entries, expireAt, h, c.time, window)
    ensures Coherent(entries + [c], Some(c.time + window), h + [c], c.time, window)
    ensures window <= 0 ==> Coherent([], None, h + [c], c.time, window)
  {
    assert (h + [c])[|h| - |entries|..] == entries + [c];
    assert (h + [c])[|h| + 1..] == [];
  }

  /** Everything the stored set keeps, folded. */
  ghost predicate Keeps(entries: seq<Call>, expireAt: Option<int>, h: seq<Call>, clock: int, limit: int, window: int) {
    forall k :: Unfold(k) ==> Honest(h, limit, window) && Coherent(entries, expireAt, h, clock, window)
  }

  lemma PurgeKeeps(entries: seq<Call>, expireAt: Option<int>, h: seq<Call>, clock: int, limit: int, window: int,
                   now: int)
    requires Keeps(entries, expireAt, h, clock, limit, window) && clock <= now
    ensures Live(Unexpired(entries, expireAt, now), now - window) == Live(h, now - window)
    ensures Keeps(Live(h, now - window), if Unexpired(entries, expireAt, now) == [] then None else expireAt,
                  h, now, limit, window)
  {
    assert Unfold(0);
    ExpiryUnseen(entries, expireAt, h, clock, window, now);
    PurgedCoherent(h, if Unexpired(entries, expireAt, now) == [] then None else expireAt, window, now);
  }

  lemma KeepsReset(entries: seq<Call>, expireAt: Option<int>, h: seq<Call>, now: int, limit: int, window: int, t: int)
    requires Keeps(entries, expireAt, h, now, limit, window) && limit >= 1 && now <= t
    requires entries == Live(h, now - window) && |entries| >= limit
    ensures Recordable(h, t, limit, window) <==> t >= entries[0].time + window
  {
    assert Unfold(0);
    ResetIsExact(h, limit, window, now, t);
  }

  lemma RecordKeeps(entries: seq<Call>, expireAt: Option<int>, h: seq<Call>, c: Call, limit: int, window: int)
    requires Keeps(entries, expireAt, h, c.time, limit, window)
    requires entries == Live(h, c.time - window) && |entries| < limit && (c.allowed <==> limit - |entries| - 1 > 0)
    ensures window > 0 ==> Keeps(entries + [c], Some(c.time + window), h + [c], c.time, limit, window)
    ensures window <= 0 ==> Keeps([], None, h + [c], c.time, limit, window)
  {
    assert Unfold(0);
    RecordHonest(h, c, limit, window);
    RecordedCoherent(entries, expireAt, h, c, window);
  }

  class SlidingWindow {
    const limit: int
    const windowSec: int
    var entries: seq<Call>
    var expireAt: Option<int>
    ghost var history: seq<Call>
    ghost var clock: int

    function Window(): int {
      windowSec * 1000
    }

    ghost predicate Valid()
      reads this
    {
      limit >= 1 ==> Keeps(entries, expireAt, history, clock, limit, Window())
    }

    constructor (limit: int, windowSec: int, now: int)
      ensures Valid() && history == [] && clock == now && this.limit == limit && this.windowSec == windowSec
    {
      this.limit, this.windowSec := limit, windowSec;
      entries, expireAt, history, clock := [], None, [], now;
    }

    /** ZREMRANGEBYSCORE, after the store has dropped the key if its time to live ran out. */
    method Purge(now: int)
      requires Valid() && limit >= 1 && clock <= now
      modifies this
      ensures Valid() && history == old(history) && clock == now
      ensures entries == Live(history, now - Window())
    {
      PurgeKeeps(entries, expireAt, history, clock, limit, Window(), now);
      entries := Unexpired(entries, expireAt, now);
      if entries == [] {
        expireAt := None;
      }
      entries := Live(entries, now - Window());
      clock := now;
    }

    /** One run of the script at time `now`. */
    method Script(now: int) returns (remaining: int, resetTime: int)
      requires Valid() && limit >= 1 && clock <= now
      modifies this
      ensures Valid() && clock == now
      ensures var live := Live(old(history), now - windowSec * 1000);
        if |live| < limit then
          remaining == limit - |live| - 1 && history == old(history) + [Call(now, remaining > 0)] &&
          resetTime == (if live == [] then now else live[0].time) + windowSec * 1000
        else
          remaining == 0 && history == old(history) && resetTime == live[0].time + windowSec * 1000 &&
          forall t :: now <= t ==> (Recordable(history, t, limit, Window()) <==> t >= resetTime)
    {
      Purge(now);
      var count := |entries|;
      if count >= limit {
        forall t | now <= t ensures Recordable(history, t, limit, Window()) <==> t >= entries[0].time + Window() {
          KeepsReset(entries, expireAt, history, now, limit, Window(), t);
        }
        return 0, entries[0].time + Window();
      }
      remaining := limit - count - 1;
      resetTime := (if entries == [] then now else entries[0].time) + Window();
      Record(now, remaining > 0);
    }

    /** ZADD and EXPIRE; a time to live of zero or less drops the key at once. */
    method Record(now: int, allowed: bool)
      requires Valid() && limit >= 1 && clock == now && entries == Live(history, now - Window())
      requires |entries| < limit && (allowed <==> limit - |entries| - 1 > 0)
      modifies this
      ensures Valid() && clock == now && history == old(history) + [Call(now, allowed)]
    {
      var call := Call(now, allowed);
      RecordKeeps(entries, expireAt, history, call, limit, Window());
      history := history + [call];
      if windowSec <= 0 {
        entries, expireAt := [], None;
      } else {
        entries, expireAt := entries + [call], Some(now + Window());
      }
    }

    /** `Allow`: without a positive limit everything passes; otherwise the caller is let through
        when something remains after it. */
    method Allow(now: int) returns (allowed: bool, remaining: int, resetTime: int)
      requires Valid() && clock <= now
      modifies this
      ensures Valid() && clock == now
      ensures limit <= 0 ==> allowed && remaining == limit && resetTime == 0 && history == old(history)
      ensures var live := Live(old(history), now - windowSec * 1000);
        limit >= 1 ==>
          (allowed <==> |live| < limit - 1) &&
          history == old(history) + (if |live| < limit then [Call(now, allowed)] else []) &&
          remaining == (if |live| < limit then limit - |live| - 1 else 0) &&
          resetTime == (if live == [] then now else live[0].time) + windowSec * 1000
    {
      if limit <= 0 {
        clock := now;
        return true, limit, 0;
      }
      remaining, resetTime := Script(now);
      allowed := remaining > 0;
    }

    /** A list of calls on a fresh limiter: in no interval of one window length are more than
        `limit - 1` of them answered with true; without a positive limit all of them are. */
    method AllowAll(times: seq<int>) returns (answers: seq<bool>)
      requires Valid() && history == []
      requires forall i :: 0 <= i < |times| ==> clock <= times[i]
      requires forall i, j :: 0 <= i < j < |times| ==> times[i] <= times[j]
      modifies this
      ensures Valid() && |answers| == |times|
      ensures limit <= 0 ==> forall i :: 0 <= i < |times| ==> answers[i]
      ensures limit >= 1 ==>
        forall lo, hi :: hi == lo + windowSec * 1000 ==> LetThrough(times, answers, lo, hi) <= limit - 1
    {
      answers := [];
      for i := 0 to |times|
        invariant Valid() && |answers| == i && forall j :: i <= j < |times| ==> clock <= times[j]
        invariant limit <= 0 ==> forall j :: 0 <= j < i ==> answers[j]
        invariant limit >= 1 ==>
          forall lo, hi :: LetThrough(times[..i], answers, lo, hi) == InWindow(history, lo, hi, true)
      {
        ghost var before, h := answers, history;
        var allowed, _, _ := Allow(times[i]);
        answers := answers + [allowed];
        forall lo, hi | limit >= 1
          ensures LetThrough(times[..i + 1], answers, lo, hi) == InWindow(history, lo, hi, true)
        {
          assert times[..i + 1][..i] == times[..i] && answers[..i] == before;
          assert history != h ==> history[..|h|] == h;
        }
      }
      assert times[..|times|] == times;
      if limit >= 1 {
        forall lo, hi | hi == lo + windowSec * 1000 ensures LetThrough(times, answers, lo, hi) <= limit - 1 {
          NeverOver(lo);
        }
      }
    }

    /** However often it is called, the limiter keeps to its limit in every window. */
    lemma NeverOver(x: int)
      requires Valid() && limit >= 1
      ensures InWindow(history, x, x + Window(), false) <= limit
      ensures InWindow(history, x, x + Window(), true) <= limit - 1
    {
      assert Unfold(0);
      WindowBound(history, limit, Window(), x);
    }
  }

  lemma {:induction false} SuffixLive(h: seq<Call>, k: nat, cutoff: int)
    requires Sorted(h) && k <= |h| && (k > 0 ==> h[k - 1].time <= cutoff)
    ensures Live(h, cutoff) == Live(h[k..], cutoff)
  {
    if k > 0 {
      assert h[0].time <= h[k - 1].time;
      assert h[1..][k - 1..] == h[k..];
      SuffixLive(h[1..], k - 1, cutoff);
    } else {
      assert h[0..] == h;
    }
  }

  /** Once the key has expired nothing it held was live. */
  lemma AllExpired(h: seq<Call>, cutoff: int)
    requires Sorted(h) && h != [] && h[|h| - 1].time <= cutoff
    ensures Live(h, cutoff) == []
  {
    forall i | 0 <= i < |h| ensures h[i].time <= cutoff {
      assert i < |h| - 1 ==> h[i].time <= h[|h| - 1].time;
    }
    NoneLive(h, cutoff);
  }

  lemma RecordHonest(h: seq<Call>, c: Call, limit: int, window: int)
    requires Honest(h, limit, window) && forall i :: 0 <= i < |h| ==> h[i].time <= c.time
    requires |Live(h, c.time - window)| < limit
    requires c.allowed <==> limit - |Live(h, c.time - window)| - 1 > 0
    ensures Honest(h + [c], limit, window)
  {
    var hc := h + [c];
    forall i | 0 <= i < |hc| ensures HonestAt(hc, limit, window, i) {
      if i < |h| {
        assert HonestAt(h, limit, window, i) && hc[..i] == h[..i];
      } else {
        assert hc[..i] == h;
      }
    }
  }
}
