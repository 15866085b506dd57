/** `IpRateLimiter`: at most so many attempts per address within a sliding window.

    The limiter forgets expired attempts as it goes; its meaning is a log that forgets nothing. Times are
    integers, and calls come one after another on a clock that does not go back. */
module RateLimiter {

  type Ip = int

  datatype Admit = Admit(ip: Ip, time: int)

  /** `now.duration_since(first)`. */
  function Elapsed(now: int, first: int): nat { if now > first then now - first else 0 }

  /** The times of one address in the log, oldest first. */
  function TimesOf(log: seq<Admit>, ip: Ip): seq<int> {
    if log == [] then []
    else TimesOf(log[..|log| - 1], ip) + (if log[|log| - 1].ip == ip then [log[|log| - 1].time] else [])
  }

  /** How many of the log's attempts of `ip` fall into the closed interval `lo..hi`. */
  function CountWithin(log: seq<Admit>, ip: Ip, lo: int, hi: int): nat {
    if log == [] then 0
    else
      var last := log[|log| - 1];
      CountWithin(log[..|log| - 1], ip, lo, hi) + (if last.ip == ip && lo <= last.time <= hi then 1 else 0)
  }

  ghost predicate AdmittedAfter(before: seq<Admit>, a: Admit, max: nat, window: nat) {
    && (forall j :: 0 <= j < |before| ==> before[j].time <= a.time)
    && CountWithin(before, a.ip, a.time - window, a.time) < max
  }

  /** Times never go back, and each attempt was admitted with fewer than `max` within the window before it. */
  ghost predicate Admitted(log: seq<Admit>, max: nat, window: nat) {
    forall k :: 0 <= k < |log| ==> AdmittedAfter(log[..k], log[k], max, window)
  }

  function DropExpired(attempts: seq<int>, now: int, window: nat): seq<int> {
    if attempts == [] || Elapsed(now, attempts[0]) <= window then attempts
    else DropExpired(attempts[1..], now, window)
  }

  method PopExpired(attempts: seq<int>, now: int, window: nat) returns (kept: seq<int>)
    ensures kept == DropExpired(attempts, now, window)
  {
    kept := attempts;
    while kept != [] && Elapsed(now, kept[0]) > window
      invariant DropExpired(kept, now, window) == DropExpired(attempts, now, window)
      decreases |kept|
    {
      kept := kept[1..];
    }
  }

  /** `kept` is the tail of `all` from the first time that can still count at `clock`. */
  ghost predicate Remembers(kept: seq<int>, all: seq<int>, clock: int, window: nat) {
    && |kept| <= |all| && all[|all| - |kept|..] == kept
    && forall k :: 0 <= k < |all| - |kept| ==> all[k] < clock - window
  }

  ghost predicate Sorted(times: seq<int>, clock: int) {
    && (forall i, j :: 0 <= i < j < |times| ==> times[i] <= times[j])
    && (forall i :: 0 <= i < |times| ==> times[i] <= clock)
  }

  /** What the limiter keeps for one address, against the whole log. */
  ghost predicate Tracks(kept: seq<int>, log: seq<Admit>, ip: Ip, clock: int, window: nat) {
    Remembers(kept, TimesOf(log, ip), clock, window) && Sorted(TimesOf(log, ip), clock)
  }

  /** How many times fall into the window that ends now. */
  function Recent(times: seq<int>, now: int, window: nat): nat {
    if times == [] then 0
    else Recent(times[..|times| - 1], now, window) + (if now - window <= times[|times| - 1] <= now then 1 else 0)
  }

  lemma {:induction false} RecentIsCount(log: seq<Admit>, ip: Ip, now: int, window: nat)
    ensures Recent(TimesOf(log, ip), now, window) == CountWithin(log, ip, now - window, now)
  {
    if log == [] {
    } else {
      var front, last := log[..|log| - 1], log[|log| - 1];
      RecentIsCount(front, ip, now, window);
      var times := TimesOf(front, ip);
      if last.ip == ip {
        assert (times + [last.time])[..|times|] == times;
      } else {
        assert times + [] == times;
      }
    }
  }

  lemma {:induction false} RecentOfTail(all: seq<int>, cut: nat, now: int, window: nat)
    requires cut <= |all|
    requires forall k :: 0 <= k < cut ==> all[k] < now - window
    requires forall k :: cut <= k < |all| ==> now - window <= all[k] <= now
    ensures Recent(all, now, window) == |all| - cut
    decreases |all|
  {
    if all == [] {
    } else {
      var front := all[..|all| - 1];
      RecentOfTail(front, if cut <= |front| then cut else |front|, now, window);
    }
  }

  lemma {:induction false} DropRemembers(kept: seq<int>, all: seq<int>, clock: int, now: int, window: nat)
    requires Remembers(kept, all, clock, window) && clock <= now && Sorted(all, now)
    ensures Remembers(DropExpired(kept, now, window), all, now, window)
    ensures |DropExpired(kept, now, window)| == Recent(all, now, window)
    decreases |kept|
  {
    var cut := |all| - |kept|;
    if kept == [] || Elapsed(now, kept[0]) <= window {
      assert forall k :: cut <= k < |all| ==> all[k] == kept[k - cut];
      RecentOfTail(all, cut, now, window);
    } else {
      assert all[cut] == kept[0] && all[cut + 1..] == kept[1..];
      DropRemembers(kept[1..], all, now, now, window);
    }
  }

  function Kept(attempts: map<Ip, seq<int>>, ip: Ip): seq<int> {
    if ip in attempts then attempts[ip] else []
  }

  lemma NothingToDrop(now: int, window: nat)
    ensures DropExpired([], now, window) == []
  {
  }

  /** Time passing only lets more attempts expire. */
  lemma TracksLater(kept: seq<int>, log: seq<Admit>, ip: Ip, clock: int, now: int, window: nat)
    requires Tracks(kept, log, ip, clock, window) && clock <= now
    ensures Tracks(kept, log, ip, now, window)
  {
    hide TimesOf;
  }

  lemma DropTracks(kept: seq<int>, log: seq<Admit>, ip: Ip, clock: int, now: int, window: nat)
    requires Tracks(kept, log, ip, clock, window) && clock <= now
    ensures Tracks(DropExpired(kept, now, window), log, ip, now, window)
    ensures |DropExpired(kept, now, window)| == CountWithin(log, ip, now - window, now)
  {
    hide TimesOf, CountWithin, DropExpired;
    DropRemembers(kept, TimesOf(log, ip), clock, now, window);
    RecentIsCount(log, ip, now, window);
  }

  lemma TimesNext(log: seq<Admit>, ip: Ip, now: int, other: Ip)
    ensures TimesOf(log + [Admit(ip, now)], other) == TimesOf(log, other) + (if other == ip then [now] else [])
    ensures TimesOf(log, other) + [] == TimesOf(log, other)
  {
    assert (log + [Admit(ip, now)])[..|log|] == log;
  }

  lemma TracksAdmit(kept: seq<int>, log: seq<Admit>, ip: Ip, now: int, window: nat)
    requires Tracks(kept, log, ip, now, window)
    ensures Tracks(kept + [now], log + [Admit(ip, now)], ip, now, window)
  {
    hide TimesOf;
    TimesNext(log, ip, now, ip);
    var all := TimesOf(log, ip);
    assert (all + [now])[|all| - |kept|..] == all[|all| - |kept|..] + [now];
  }

  lemma TracksOther(kept: seq<int>, log: seq<Admit>, ip: Ip, now: int, other: Ip, window: nat)
    requires Tracks(kept, log, other, now, window) && other != ip
    ensures Tracks(kept, log + [Admit(ip, now)], other, now, window)
  {
    hide TimesOf;
    TimesNext(log, ip, now, other);
  }

  lemma AdmitNext(log: seq<Admit>, ip: Ip, now: int, max: nat, window: nat)
    requires Admitted(log, max, window) && CountWithin(log, ip, now - window, now) < max
    requires forall k :: 0 <= k < |log| ==> log[k].time <= now
    ensures Admitted(log + [Admit(ip, now)], max, window)
  {
    hide CountWithin;
    var next := log + [Admit(ip, now)];
    assert AdmittedAfter(log, Admit(ip, now), max, window);
    forall k | 0 <= k < |next| ensures AdmittedAfter(next[..k], next[k], max, window) {
      if k < |log| {
        assert next[..k] == log[..k] && next[k] == log[k];
      } else {
        assert next[..k] == log;
      }
    }
  }

  class IpRateLimiter {
    const maxAttempts: nat
    const window: nat
    var attemptsByIp: map<Ip, seq<int>>
    ghost var log: seq<Admit>        // every attempt ever admitted
    ghost var clock: int             // the last time looked at

    ghost predicate Valid()
      reads this
    {
      && Admitted(log, maxAttempts, window)
      && (forall ip :: Tracks(Kept(attemptsByIp, ip), log, ip, clock, window))
      && (forall k :: 0 <= k < |log| ==> log[k].time <= clock)
    }

    constructor (maxAttempts: nat, window: nat, ghost now: int)
      ensures Valid() && log == [] && clock == now
      ensures this.maxAttempts == maxAttempts && this.window == window
    {
      this.maxAttempts, this.window := maxAttempts, window;
      attemptsByIp := map[];
      log, clock := [], now;
    }

    /** An attempt is admitted exactly when fewer than `maxAttempts` earlier admits of that address lie
        within the window. Neither cleanups nor other addresses come into it. */
    method Allow(ip: Ip, now: int) returns (ok: bool)
      requires Valid() && clock <= now
      modifies this
      ensures Valid() && clock == now
      ensures ok <==> maxAttempts == 0 || CountWithin(old(log), ip, now - window, now) < maxAttempts
      ensures log == if ok && maxAttempts > 0 then old(log) + [Admit(ip, now)] else old(log)
    {
      hide CountWithin, Tracks, DropExpired, Admitted;
      forall other ensures Tracks(Kept(attemptsByIp, other), log, other, now, window) {
        TracksLater(Kept(attemptsByIp, other), log, other, clock, now, window);
      }
      if maxAttempts == 0 {
        clock := now;
        return true;
      }
      DropTracks(Kept(attemptsByIp, ip), log, ip, clock, now, window);
      var attempts := PopExpired(Kept(attemptsByIp, ip), now, window);
      clock := now;
      ghost var before := attemptsByIp;
      if |attempts| >= maxAttempts {
        attemptsByIp := attemptsByIp[ip := attempts];
        forall other ensures Tracks(Kept(attemptsByIp, other), log, other, now, window) {
          assert Tracks(Kept(before, other), log, other, now, window);
        }
        return false;
      }
      attemptsByIp := attemptsByIp[ip := attempts + [now]];
      AdmitNext(log, ip, now, maxAttempts, window);
      TracksAdmit(attempts, log, ip, now, window);
      forall other ensures Tracks(Kept(attemptsByIp, other), log + [Admit(ip, now)], other, now, window) {
        if other != ip { TracksOther(Kept(before, other), log, ip, now, other, window); }
      }
      log := log + [Admit(ip, now)];
      return true;
    }

    /** `cleanup` changes no answer, the log stands as it was; and an address stays listed exactly while it
        has an admit within the window, with as many times as it has such admits. */
    method Cleanup(now: int)
      requires Valid() && clock <= now
      modifies this
      ensures Valid() && clock == now && log == old(log)
      ensures forall ip :: ip in attemptsByIp <==> CountWithin(log, ip, now - window, now) > 0
      ensures forall ip :: ip in attemptsByIp ==> |attemptsByIp[ip]| == CountWithin(log, ip, now - window, now)
    {
      hide CountWithin, Tracks, DropExpired, Admitted;
      ghost var before := attemptsByIp;
      attemptsByIp := map ip | ip in attemptsByIp && DropExpired(attemptsByIp[ip], now, window) != []
        :: DropExpired(attemptsByIp[ip], now, window);
      forall ip
        ensures Tracks(Kept(attemptsByIp, ip), log, ip, now, window)
        ensures |Kept(attemptsByIp, ip)| == CountWithin(log, ip, now - window, now)
      {
        NothingToDrop(now, window);
        DropTracks(Kept(before, ip), log, ip, clock, now, window);
      }
      forall ip ensures ip in attemptsByIp <==> |Kept(attemptsByIp, ip)| > 0 {}
      clock := now;
    }
  }

  lemma AdmittedFront(log: seq<Admit>, max: nat, window: nat)
    requires log != [] && Admitted(log, max, window)
    ensures Admitted(log[..|log| - 1], max, window)
    ensures AdmittedAfter(log[..|log| - 1], log[|log| - 1], max, window)
  {
    hide AdmittedAfter;
    var front := log[..|log| - 1];
    forall k | 0 <= k < |front| ensures AdmittedAfter(front[..k], front[k], max, window) {
      assert front[..k] == log[..k] && front[k] == log[k];
    }
  }

  /** Every attempt up to `to` that lies within `lo..hi` lies within `from..to`, when `from <= lo`. */
  lemma {:induction false} CountInside(log: seq<Admit>, ip: Ip, lo: int, hi: int, from: int, to: int)
    requires from <= lo && forall k :: 0 <= k < |log| ==> log[k].time <= to
    ensures CountWithin(log, ip, lo, hi) <= CountWithin(log, ip, from, to)
  {
    if log == [] {
    } else {
      CountInside(log[..|log| - 1], ip, lo, hi, from, to);
    }
  }

  /** The bound itself: no closed interval as long as the window holds more than `max` admits of one
      address, wherever the interval lies. */
  lemma {:induction false} WindowBound(log: seq<Admit>, max: nat, window: nat, ip: Ip, lo: int)
    requires Admitted(log, max, window)
    ensures CountWithin(log, ip, lo, lo + window) <= max
    decreases |log|
  {
    if log == [] {
    } else {
      var front, last := log[..|log| - 1], log[|log| - 1];
      AdmittedFront(log, max, window);
      if last.ip == ip && lo <= last.time <= lo + window {
        CountInside(front, ip, lo, lo + window, last.time - window, last.time);
      } else {
        WindowBound(front, max, window, ip, lo);
      }
    }
  }
}
