/** The sliding-window rate limiter, one list of timestamps a key. */
module RateLimit {
  import opened Prelude

  datatype Answer = Answer(allowed: bool, remaining: int, retryAfterMs: int)

  // ---- Histories: the times of the allowed calls of one key

  predicate Sorted(h: seq<int>) {
    forall i, j :: 0 <= i <= j < |h| ==> h[i] <= h[j]
  }

  /** The entries after `start`, in order: the filter of the source. */
  function After(h: seq<int>, start: int): (r: seq<int>)
    ensures |r| <= |h| && forall t :: t in r <==> t in h && t > start
  {
    if h == [] then []
    else if h[0] > start then [h[0]] + After(h[1..], start)
    else After(h[1..], start)
  }

  /** No `max + 1` allowed calls lie closer together than a window. */
  predicate Spaced(h: seq<int>, window: int, max: nat) {
    forall i :: 0 <= i && i + max < |h| ==> h[i + max] - h[i] >= window
  }

  lemma {:induction false} AfterSorted(h: seq<int>, start: int)
    requires Sorted(h)
    ensures After(h, start) == h[|h| - |After(h, start)|..]
    ensures forall i :: 0 <= i < |h| - |After(h, start)| ==> h[i] <= start
  {
    if h == [] {
    } else if h[0] > start {
      AfterAll(h, start);
    } else {
      var rest := h[1..];
      assert forall i :: 0 <= i < |rest| ==> rest[i] == h[i + 1];
      AfterSorted(rest, start);
      var n := |After(h, start)|;
      assert rest[|rest| - n..] == h[|h| - n..];
      forall i | 0 <= i < |h| - n ensures h[i] <= start {
        if i > 0 { assert rest[i - 1] <= start; }
      }
    }
  }

  lemma {:induction false} AfterAll(h: seq<int>, start: int)
    requires forall t <- h :: t > start
    ensures After(h, start) == h
  {
    if h != [] {
      assert h[0] in h && forall t <- h[1..] :: t in h;
      AfterAll(h[1..], start);
    }
  }

  lemma {:induction false} AfterAfter(h: seq<int>, s1: int, s2: int)
    requires s1 <= s2
    ensures After(After(h, s1), s2) == After(h, s2)
  {
    if h != [] {
      AfterAfter(h[1..], s1, s2);
    }
  }

  lemma {:induction false} AfterSnoc(h: seq<int>, t: int, start: int)
    ensures After(h + [t], start) == After(h, start) + if t > start then [t] else []
  {
    if h == [] {
      assert [t][1..] == [];
    } else {
      assert (h + [t])[1..] == h[1..] + [t];
      AfterSnoc(h[1..], t, start);
    }
  }

  /** The answer the full history calls for. */
  function Decide(h: seq<int>, now: int, window: int, max: nat): Answer {
    var recent := After(h, now - window);
    if |recent| >= max then
      var retry := if |recent| > 0 then recent[0] + window - now else 0;
      Answer(false, 0, if retry >= 1000 then retry else 1000)
    else Answer(true, max - |recent| - 1, 0)
  }

  function Record(h: seq<int>, now: int, window: int, max: nat): seq<int> {
    if Decide(h, now, window, max).allowed then h + [now] else h
  }

  // ---- The bound

  /** Never more than `max` calls are inside the window. */
  lemma RecentBounded(h: seq<int>, now: int, window: int, max: nat)
    requires max >= 1 && window > 0 && Sorted(h) && Spaced(h, window, max) && forall t <- h :: t <= now
    ensures |After(h, now - window)| <= max
    ensures |After(h, now - window)| < max ==> forall i :: 0 <= i <= |h| - max && i < |h| ==> h[i] <= now - window
  {
    hide After, Sorted;
    AfterSorted(h, now - window);
    var recent := After(h, now - window);
    var first := |h| - |recent|;
    forall i | 0 <= i < |h| - max ensures h[i] <= now - window {
      assert h[i + max] in h && h[i + max] - h[i] >= window;
    }
    if |recent| > 0 {
      assert h[first] == recent[0] && recent[0] in recent;
    }
  }

  lemma RecordKeepsSpacing(h: seq<int>, now: int, window: int, max: nat)
    requires max >= 1 && window > 0 && Sorted(h) && Spaced(h, window, max) && forall t <- h :: t <= now
    ensures Sorted(Record(h, now, window, max)) && Spaced(Record(h, now, window, max), window, max)
    ensures |After(h, now - window)| <= max
  {
    hide After;
    RecentBounded(h, now, window, max);
    forall i | 0 <= i < |h| ensures h[i] <= now { assert h[i] in h; }
    var r := Record(h, now, window, max);
    if |r| > |h| {
      forall i | 0 <= i && i + max < |r| ensures r[i + max] - r[i] >= window {
        if i + max == |h| {
          assert h[i] <= now - window;
        }
      }
    }
  }

  function CountIn(h: seq<int>, lo: int, hi: int): nat {
    if h == [] then 0
    else CountIn(h[..|h| - 1], lo, hi) + if lo <= h[|h| - 1] < hi then 1 else 0
  }

  lemma CountSnoc(h: seq<int>, t: int, lo: int, hi: int)
    ensures CountIn(h + [t], lo, hi) == CountIn(h, lo, hi) + if lo <= t < hi then 1 else 0
  {
    assert (h + [t])[..|h|] == h;
  }

  lemma {:induction false} CountAfter(h: seq<int>, start: int, hi: int)
    requires forall t <- h :: t < hi
    ensures |After(h, start)| == CountIn(h, start + 1, hi)
  {
    hide After;
    if h == [] {
      NoTimestamps(start);
    } else {
      var init, last := h[..|h| - 1], h[|h| - 1];
      assert h == init + [last] && last in h && forall t <- init :: t in h;
      CountAfter(init, start, hi);
      AfterSnoc(init, last, start);
    }
  }

  /** The answer on the calls themselves: allowed exactly if fewer than `max` lie in the window that ends now; what is left
      is what the window still takes; and a refusal announces the time until the oldest of them leaves, at least a second. */
  lemma DecideExactly(h: seq<int>, now: int, window: int, max: nat)
    requires max >= 1 && Sorted(h) && forall t <- h :: t <= now
    ensures var a, n := Decide(h, now, window, max), CountIn(h, now - window + 1, now + 1);
            && (a.allowed <==> n < max)
            && (a.allowed ==> a.remaining == max - n - 1 && a.retryAfterMs == 0)
            && (!a.allowed ==>
                  && a.remaining == 0
                  && exists oldest :: Oldest(h, now, window, oldest)
                       && a.retryAfterMs == if oldest + window - now >= 1000 then oldest + window - now else 1000)
  {
    CountAfter(h, now - window, now + 1);
    var recent := After(h, now - window);
    if recent != [] {
      SortedWindow(h, now - window);
      hide After, Sorted;
      forall t | t in h && t > now - window ensures recent[0] <= t { FirstIsLeast(recent, t); }
      assert recent[0] in recent;
      assert Oldest(h, now, window, recent[0]);
    }
  }

  lemma FirstIsLeast(s: seq<int>, t: int)
    requires Sorted(s) && t in s
    ensures s[0] <= t
  {
    var i :| 0 <= i < |s| && s[i] == t;
  }

  ghost predicate Oldest(h: seq<int>, now: int, window: int, oldest: int) {
    oldest in h && oldest > now - window && forall t <- h :: t > now - window ==> oldest <= t
  }

  /** A half-open interval one window long holds at most `max` allowed calls. */
  lemma {:induction false} WindowBound(h: seq<int>, lo: int, window: int, max: nat)
    requires max >= 1 && Sorted(h) && Spaced(h, window, max)
    ensures CountIn(h, lo, lo + window) <= max
    ensures |h| > 0 && h[|h| - 1] >= lo + window ==> CountIn(h, lo, lo + window) == CountIn(h[..|h| - 1], lo, lo + window)
  {
    if |h| > max {
      WindowBound(h[..|h| - 1], lo, window, max);
      if h[|h| - 1] < lo + window {
        assert h[|h| - 1 - max] < lo;
        AtMostTheRest(h, |h| - max, lo, lo + window);
      }
    } else {
      AtMostTheRest(h, 0, lo, lo + window);
    }
  }

  /** Entries before position `k` are too early to count. */
  lemma {:induction false} AtMostTheRest(h: seq<int>, k: nat, lo: int, hi: int)
    requires k <= |h| && forall i :: 0 <= i < k ==> h[i] < lo
    ensures CountIn(h, lo, hi) <= |h| - k
  {
    if |h| > k {
      AtMostTheRest(h[..|h| - 1], k, lo, hi);
    } else if h != [] {
      AtMostTheRest(h[..|h| - 1], k - 1, lo, hi);
    }
  }

  /** After a refusal the next check on the key is allowed exactly from the moment the oldest call leaves
      the window; the announced wait is never shorter. */
  lemma RetryIsEnough(h: seq<int>, now: int, later: int, window: int, max: nat)
    requires max >= 1 && window > 0 && Sorted(h) && Spaced(h, window, max) && (forall t <- h :: t <= now) && now <= later
    requires !Decide(h, now, window, max).allowed
    ensures var recent := After(h, now - window);
            |recent| == max && (Decide(h, later, window, max).allowed <==> later >= recent[0] + window)
    ensures later >= now + Decide(h, now, window, max).retryAfterMs ==> Decide(h, later, window, max).allowed
  {
    hide After, Spaced, Sorted;
    var recent := After(h, now - window);
    RecentBounded(h, now, window, max);
    SortedWindow(h, now - window);
    AfterAfter(h, now - window, later - window);
    FirstLeaves(recent, later - window);
  }

  lemma SortedWindow(h: seq<int>, start: int)
    requires Sorted(h)
    ensures Sorted(After(h, start))
  {
    AfterSorted(h, start);
  }

  /** A sorted list loses an entry to the filter exactly when it loses its first. */
  lemma FirstLeaves(r: seq<int>, start: int)
    requires Sorted(r) && r != []
    ensures |After(r, start)| < |r| <==> r[0] <= start
  {
    if r[0] > start {
      forall t | t in r ensures t > start {
        var i :| 0 <= i < |r| && r[i] == t;
      }
      AfterAll(r, start);
    }
  }

  /** The kept timestamps answer every check still to come as the full history would. */
  ghost predicate Faithful(kept: seq<int>, h: seq<int>, clock: int, window: int, max: nat) {
    && Sorted(h) && Spaced(h, window, max) && (forall t <- h :: t <= clock)
    && forall start :: start >= clock - window ==> After(kept, start) == After(h, start)
  }

  lemma CheckStep(kept: seq<int>, h: seq<int>, clock: int, now: int, window: int, max: nat)
    requires max >= 1 && window > 0 && Faithful(kept, h, clock, window, max) && clock <= now
    ensures var recent := After(kept, now - window);
            && recent == After(h, now - window)
            && Faithful(if |recent| >= max then recent else recent + [now], Record(h, now, window, max), now, window, max)
  {
    hide After;
    var start := now - window;
    RecordKeepsSpacing(h, now, window, max);
    CleanupStep(kept, h, clock, now, window, max);
    var recent := After(kept, start);
    if |recent| < max {
      forall s | s >= start ensures After(recent + [now], s) == After(h + [now], s) {
        AfterSnoc(recent, now, s);
        AfterSnoc(h, now, s);
      }
    }
  }

  lemma CleanupStep(kept: seq<int>, h: seq<int>, clock: int, now: int, window: int, max: nat)
    requires Faithful(kept, h, clock, window, max) && clock <= now
    ensures Faithful(After(kept, now - window), h, now, window, max)
  {
    forall s | s >= now - window ensures After(After(kept, now - window), s) == After(h, s) {
      AfterAfter(kept, now - window, s);
    }
  }

  lemma NothingYet(clock: int, window: int, max: nat)
    ensures Faithful([], [], clock, window, max)
  {
  }

  // ---- The limiter

  class RateLimiter {
    const windowMs: int
    const maxRequests: nat
    var windows: map<string, seq<int>>
    /** All allowed calls of each key, and the latest clock reading. */
    ghost var history: map<string, seq<int>>
    ghost var clock: int

    ghost function History(key: string): seq<int>
      reads this
    {
      if key in history then history[key] else []
    }

    function Window(key: string): seq<int>
      reads this
    {
      if key in windows then windows[key] else []
    }

    ghost predicate Valid()
      reads this
    {
      maxRequests >= 1 && windowMs > 0 && forall key :: Faithful(Window(key), History(key), clock, windowMs, maxRequests)
    }

    constructor (windowMs: int, maxRequests: nat)
      requires windowMs > 0 && maxRequests >= 1
      ensures Valid() && forall key :: History(key) == []
      ensures this.windowMs == windowMs && this.maxRequests == maxRequests
    {
      this.windowMs, this.maxRequests := windowMs, maxRequests;
      windows, history, clock := map[], map[], 0;
      new;
      NothingYet(0, windowMs, maxRequests);
      assert forall key :: Window(key) == [] && History(key) == [];
    }

    /** The answer depends on the key's own allowed calls alone: not on when `Cleanup` ran, not on other keys. */
    method Check(key: string, now: int) returns (a: Answer)
      requires Valid() && clock <= now
      modifies this
      ensures Valid() && clock == now
      ensures a == Decide(old(History(key)), now, windowMs, maxRequests)
      ensures History(key) == Record(old(History(key)), now, windowMs, maxRequests)
      ensures a.allowed <==> CountIn(old(History(key)), now - windowMs + 1, now + 1) < maxRequests
      ensures History(key) == if a.allowed then old(History(key)) + [now] else old(History(key))
      ensures forall other :: other != key ==> History(other) == old(History(other))
    {
      hide Faithful, Sorted, Spaced, After;
      var windowStart := now - windowMs;
      ghost var h := History(key);
      CheckStep(Window(key), h, clock, now, windowMs, maxRequests);
      KeepOthers(now);
      AnswerCounts(key, now);
      var timestamps := if key in windows then windows[key] else [];
      timestamps := After(timestamps, windowStart);
      if |timestamps| >= maxRequests {
        windows := windows[key := timestamps];
        clock := now;
        assert Record(h, now, windowMs, maxRequests) == h;
        forall other ensures Faithful(Window(other), History(other), now, windowMs, maxRequests) {
          assert other != key ==> Window(other) == old(Window(other));
          assert History(other) == old(History(other));
        }
        var retryAfterMs := timestamps[0] + windowMs - now;
        return Answer(false, 0, if retryAfterMs >= 1000 then retryAfterMs else 1000);
      }
      windows := windows[key := timestamps + [now]];
      history := history[key := h + [now]];
      clock := now;
      assert Record(h, now, windowMs, maxRequests) == h + [now];
      forall other ensures Faithful(Window(other), History(other), now, windowMs, maxRequests) {
        assert other != key ==> Window(other) == old(Window(other)) && History(other) == old(History(other));
      }
      return Answer(true, maxRequests - |timestamps + [now]|, 0);
    }

    /** Over every run: a window-long half-open interval holds at most `maxRequests` allowed calls. */
    lemma WindowBoundHolds(key: string, from: int)
      requires Valid()
      ensures CountIn(History(key), from, from + windowMs) <= maxRequests
    {
      assert Faithful(Window(key), History(key), clock, windowMs, maxRequests);
      WindowBound(History(key), from, windowMs, maxRequests);
    }

    lemma AnswerCounts(key: string, now: int)
      requires Valid() && clock <= now
      ensures Decide(History(key), now, windowMs, maxRequests).allowed
              <==> CountIn(History(key), now - windowMs + 1, now + 1) < maxRequests
    {
      assert Faithful(Window(key), History(key), clock, windowMs, maxRequests);
      DecideExactly(History(key), now, windowMs, maxRequests);
    }

    /** The passing of time spoils no key. */
    lemma KeepOthers(now: int)
      requires Valid() && clock <= now
      ensures forall key :: Faithful(Window(key), History(key), now, windowMs, maxRequests)
    {
      forall key ensures Faithful(Window(key), History(key), now, windowMs, maxRequests) {
        assert Faithful(Window(key), History(key), clock, windowMs, maxRequests);
      }
    }

    /** Dropping what has left the window changes no history, hence no answer. */
    method Cleanup(now: int)
      requires Valid() && clock <= now
      modifies this
      ensures Valid() && clock == now && history == old(history)
    {
      hide Faithful, After;
      var windowStart := now - windowMs;
      ghost var was := windows;
      var keys := windows.Keys;
      while keys != {}
        invariant keys <= was.Keys && windows.Keys <= was.Keys
        invariant history == old(history) && clock == old(clock)
        invariant forall k <- was :: k in keys ==> k in windows && windows[k] == was[k]
        invariant forall k <- was :: k !in keys ==> Window(k) == After(was[k], windowStart)
      {
        var k :| k in keys;
        keys := keys - {k};
        var timestamps := After(windows[k], windowStart);
        if timestamps == [] {
          windows := windows - {k};
        } else {
          windows := windows[k := timestamps];
        }
      }
      clock := now;
      forall key ensures Faithful(Window(key), History(key), clock, windowMs, maxRequests) {
        assert old(Faithful(Window(key), History(key), clock, windowMs, maxRequests));
        CleanupStep(old(Window(key)), History(key), old(clock), now, windowMs, maxRequests);
        if key !in was { NoTimestamps(windowStart); }
      }
    }
  }

  lemma NoTimestamps(start: int)
    ensures After([], start) == []
  {
  }
}
