/**
 The in-memory sliding-window limiter of `backend/auth/rate_limit.py`.

 Each key owns a list of admission times.  A check prunes the entries that have left
 the window, rejects when `limit` remain, and otherwise appends the current time.  The
 list is therefore only a fragment of the history; the theorems below are about the
 whole history of admitted calls.
 */
module RateLimiting {

  /** The comprehension `[t for t in ts if now - t < window]`. */
  function Live(ts: seq<real>, now: real, window: int): (live: seq<real>)
    ensures |live| <= |ts|
    ensures forall t :: t in live <==> t in ts && now - t < window as real
  {
    if ts == [] then []
    else (if now - ts[0] < window as real then [ts[0]] else []) + Live(ts[1..], now, window)
  }

  /** `_requests` is a `defaultdict(list)`: an absent key reads as the empty list. */
  function Entries(requests: map<string, seq<real>>, key: string): seq<real> {
    if key in requests then requests[key] else []
  }

  predicate Admits(requests: map<string, seq<real>>, key: string, limit: int, window: int, now: real) {
    |Live(Entries(requests, key), now, window)| < limit
  }

  /** The table after one check. */
  function AfterCheck(requests: map<string, seq<real>>, key: string, limit: int, window: int, now: real)
    : map<string, seq<real>>
  {
    var live := Live(Entries(requests, key), now, window);
    requests[key := if |live| < limit then live + [now] else live]
  }

  class RateLimiter {
    var requests: map<string, seq<real>>

    constructor ()
      ensures requests == map[]
    {
      requests := map[];
    }

    /** `check`: `admitted` is false where the source raises the 429 response. */
    method Check(key: string, limit: int, window: int, now: real) returns (admitted: bool)
      modifies this
      ensures admitted == old(Admits(requests, key, limit, window, now))
      ensures requests == old(AfterCheck(requests, key, limit, window, now))
      ensures forall k :: k != key ==> Entries(requests, k) == old(Entries(requests, k))
    {
      var timestamps := Entries(requests, key);
      requests := requests[key := Live(timestamps, now, window)];
      if |requests[key]| >= limit {
        return false;
      }
      requests := requests[key := requests[key] + [now]];
      return true;
    }
  }

  // ---------------------------------------------------------------- histories

  datatype Call = Call(key: string, limit: int, window: int, now: real)

  /** The table after a history of calls, for any mixture of keys. */
  function Run(calls: seq<Call>): map<string, seq<real>> {
    if calls == [] then map[]
    else
      var c := calls[|calls| - 1];
      AfterCheck(Run(calls[..|calls| - 1]), c.key, c.limit, c.window, c.now)
  }

  /** Was call number `i` of the history admitted? */
  predicate Admitted(calls: seq<Call>, i: nat)
    requires i < |calls|
  {
    Admits(Run(calls[..i]), calls[i].key, calls[i].limit, calls[i].window, calls[i].now)
  }

  /** The complete, never pruned list of admission times of one key. */
  function AdmissionTimes(calls: seq<Call>, key: string): seq<real> {
    if calls == [] then []
    else
      var n := |calls| - 1;
      AdmissionTimes(calls[..n], key) + if calls[n].key == key && Admitted(calls, n) then [calls[n].now] else []
  }

  /** The number of times in the half-open interval `[from, from + window)`. */
  function CountIn(ts: seq<real>, from: real, window: int): nat {
    if ts == [] then 0
    else
      var n := |ts| - 1;
      CountIn(ts[..n], from, window) + if from <= ts[n] < from + window as real then 1 else 0
  }

  /** The calls of `key` use one limit and one window, and its clock never runs backwards. */
  ghost predicate Regular(calls: seq<Call>, key: string, limit: int, window: int) {
    && (forall i :: 0 <= i < |calls| && calls[i].key == key ==> calls[i].limit == limit && calls[i].window == window)
    && (forall i, j :: 0 <= i < j < |calls| && calls[i].key == key && calls[j].key == key ==> calls[i].now <= calls[j].now)
  }

  /** `now` is not before any call of `key` in the history. */
  ghost predicate NotBefore(calls: seq<Call>, key: string, now: real) {
    forall i :: 0 <= i < |calls| && calls[i].key == key ==> calls[i].now <= now
  }

  // ---------------------------------------------------------------- lemmas

  lemma {:induction false} LiveAppend(ts: seq<real>, us: seq<real>, now: real, window: int)
    ensures Live(ts + us, now, window) == Live(ts, now, window) + Live(us, now, window)
  {
    if ts == [] {
      assert ts + us == us;
    } else {
      assert (ts + us)[0] == ts[0] && (ts + us)[1..] == ts[1..] + us;
      LiveAppend(ts[1..], us, now, window);
    }
  }

  /** Pruning at an earlier moment loses nothing a later check would still count. */
  lemma {:induction false} PruningIsHarmless(ts: seq<real>, earlier: real, later: real, window: int)
    requires earlier <= later
    ensures Live(Live(ts, earlier, window), later, window) == Live(ts, later, window)
  {
    if ts != [] {
      PruningIsHarmless(ts[1..], earlier, later, window);
      var head := if earlier - ts[0] < window as real then [ts[0]] else [];
      LiveAppend(head, Live(ts[1..], earlier, window), later, window);
    }
  }

  /** The stored fragment answers every later check exactly as the full history would. */
  lemma {:induction false} StoredAgreesWithHistory(calls: seq<Call>, key: string, limit: int, window: int, now: real)
    requires Regular(calls, key, limit, window) && NotBefore(calls, key, now)
    ensures Live(Entries(Run(calls), key), now, window) == Live(AdmissionTimes(calls, key), now, window)
  {
    if calls != [] {
      var n := |calls| - 1;
      var c := calls[n];
      var before := calls[..n];
      var stored := Entries(Run(before), key);
      StoredAgreesWithHistory(before, key, limit, window, now);
      if c.key == key {
        PruningIsHarmless(stored, c.now, now, window);
      }
      if c.key == key && Admitted(calls, n) {
        LiveAppend(Live(stored, c.now, window), [c.now], now, window);
        LiveAppend(AdmissionTimes(before, key), [c.now], now, window);
      } else {
        assert AdmissionTimes(calls, key) == AdmissionTimes(before, key);
      }
    }
  }

  lemma {:induction false} CountWithinLive(ts: seq<real>, from: real, now: real, window: int)
    requires now < from + window as real
    ensures CountIn(ts, from, window) <= |Live(ts, now, window)|
  {
    if ts != [] {
      var n := |ts| - 1;
      CountWithinLive(ts[..n], from, now, window);
      LiveAppend(ts[..n], [ts[n]], now, window);
      assert ts[..n] + [ts[n]] == ts;
    }
  }

  lemma RegularPrefix(calls: seq<Call>, key: string, limit: int, window: int, i: nat)
    requires i < |calls| && calls[i].key == key && Regular(calls, key, limit, window)
    ensures Regular(calls[..i], key, limit, window) && NotBefore(calls[..i], key, calls[i].now)
  {
  }

  /** A call is rejected exactly when `limit` admissions of its key lie in the preceding window. */
  lemma RejectedExactlyAtLimit(calls: seq<Call>, key: string, limit: int, window: int, i: nat)
    requires Regular(calls, key, limit, window)
    requires i < |calls| && calls[i].key == key
    ensures !Admitted(calls, i) <==> |Live(AdmissionTimes(calls[..i], key), calls[i].now, window)| >= limit
  {
    RegularPrefix(calls, key, limit, window, i);
    StoredAgreesWithHistory(calls[..i], key, limit, window, calls[i].now);
  }

  /** The admitted calls of a key less than `window` before `now`. */
  function RecentAdmissions(calls: seq<Call>, key: string, now: real, window: int): nat {
    if calls == [] then 0
    else
      var n := |calls| - 1;
      RecentAdmissions(calls[..n], key, now, window)
      + if calls[n].key == key && Admitted(calls, n) && now - calls[n].now < window as real then 1 else 0
  }

  lemma {:induction false} LiveCountsRecent(calls: seq<Call>, key: string, now: real, window: int)
    ensures |Live(AdmissionTimes(calls, key), now, window)| == RecentAdmissions(calls, key, now, window)
  {
    if calls != [] {
      var n := |calls| - 1;
      var before := AdmissionTimes(calls[..n], key);
      LiveCountsRecent(calls[..n], key, now, window);
      if calls[n].key == key && Admitted(calls, n) {
        LiveAppend(before, [calls[n].now], now, window);
      } else {
        assert AdmissionTimes(calls, key) == before;
      }
    }
  }

  /** The same by counting calls: a call is admitted exactly when fewer than `limit` were in the window before it. */
  lemma AdmittedIffBelowLimit(calls: seq<Call>, key: string, limit: int, window: int, i: nat)
    requires Regular(calls, key, limit, window)
    requires i < |calls| && calls[i].key == key
    ensures Admitted(calls, i) <==> RecentAdmissions(calls[..i], key, calls[i].now, window) < limit
  {
    RejectedExactlyAtLimit(calls, key, limit, window, i);
    LiveCountsRecent(calls[..i], key, calls[i].now, window);
  }

  /** No interval of length `window` ever contains more than `limit` admitted calls of a key. */
  lemma {:induction false} WindowNeverExceedsLimit(calls: seq<Call>, key: string, limit: int, window: int, from: real)
    requires Regular(calls, key, limit, window)
    ensures CountIn(AdmissionTimes(calls, key), from, window) <= if limit < 0 then 0 else limit
  {
    if calls != [] {
      var n := |calls| - 1;
      var before := AdmissionTimes(calls[..n], key);
      WindowNeverExceedsLimit(calls[..n], key, limit, window, from);
      if calls[n].key == key && Admitted(calls, n) {
        var t := calls[n].now;
        assert (before + [t])[..|before|] == before;
        RejectedExactlyAtLimit(calls, key, limit, window, n);
        if from <= t < from + window as real {
          CountWithinLive(before, from, t, window);
        }
      } else {
        assert AdmissionTimes(calls, key) == before;
      }
    }
  }

  /** A call leaves the entries of every other key alone, so it cannot change their answers. */
  lemma {:induction false} OtherKeysUntouched(calls: seq<Call>, c: Call, key: string)
    requires c.key != key
    ensures Entries(Run(calls + [c]), key) == Entries(Run(calls), key)
    ensures AdmissionTimes(calls + [c], key) == AdmissionTimes(calls, key)
  {
  }
}
