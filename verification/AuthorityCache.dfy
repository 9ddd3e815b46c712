/**
 The bounded-freshness role cache of `backend/auth/live_authority.py`.

 Between the lookup and the store of one request the code awaits several HTTP calls, so
 the atomic sections of all concurrent requests interleave freely.  A history is
 therefore an arbitrary sequence of lookups and stores.
 */
module AuthorityCaching {
  import opened Common

  const CAPACITY: nat := 1024

  /** (issuer, token digest) */
  type Key = (string, string)

  datatype Entry = Entry(expiry: real, roles: seq<string>)

  /** The `OrderedDict`: `order` runs from the least to the most recently touched key. */
  datatype Cache = Cache(order: seq<Key>, entries: map<Key, Entry>)

  datatype Event =
    | Lookup(key: Key, mono: real)
      // `mono` is the monotonic clock, `remaining` the rest of the token's life
    | Store(key: Key, mono: real, remaining: real, roles: seq<string>)

  function Without(order: seq<Key>, key: Key): (rest: seq<Key>)
    ensures forall k :: k in rest <==> k in order && k != key
    ensures |rest| <= |order|
  {
    if order == [] then []
    else (if order[0] == key then [] else [order[0]]) + Without(order[1..], key)
  }

  /** The last `n` elements. */
  function LastN<T>(s: seq<T>, n: nat): seq<T> {
    if |s| <= n then s else s[|s| - n..]
  }

  predicate IsHit(c: Cache, key: Key, mono: real) {
    key in c.entries && c.entries[key].expiry > mono
  }

  /** The entries whose keys are still in the order. */
  function Restrict(entries: map<Key, Entry>, order: seq<Key>): map<Key, Entry> {
    map k | k in entries && k in order :: entries[k]
  }

  function AfterLookup(c: Cache, key: Key, mono: real): Cache {
    if IsHit(c, key, mono) then c.(order := Without(c.order, key) + [key]) else c
  }

  /** A store whose token has no life left raises 401 and leaves the cache alone. */
  function AfterStore(c: Cache, key: Key, mono: real, remaining: real, roles: seq<string>, ttl: real): Cache {
    if remaining <= 0.0 then c
    else
      var order := LastN(Without(c.order, key) + [key], CAPACITY);
      var entries := c.entries[key := Entry(mono + MinReal(ttl, remaining), roles)];
      Cache(order, Restrict(entries, order))
  }

  function Apply(c: Cache, e: Event, ttl: real): Cache {
    match e
    case Lookup(key, mono) => AfterLookup(c, key, mono)
    case Store(key, mono, remaining, roles) => AfterStore(c, key, mono, remaining, roles, ttl)
  }

  function Run(history: seq<Event>, ttl: real): Cache {
    if history == [] then Cache([], map[])
    else Apply(Run(history[..|history| - 1], ttl), history[|history| - 1], ttl)
  }

  ghost predicate NoDuplicates<T>(s: seq<T>) {
    forall i, j :: 0 <= i < j < |s| ==> s[i] != s[j]
  }

  ghost predicate Valid(c: Cache) {
    && NoDuplicates(c.order)
    && |c.order| <= CAPACITY
    && (forall k :: k in c.entries <==> k in c.order)
  }

  class AuthorityCache {
    var order: seq<Key>
    var entries: map<Key, Entry>
    const ttl: real

    ghost predicate Ok()
      reads this
    {
      Valid(Cache(order, entries))
    }

    /** The configured lifetime is clamped to 0..30 seconds. */
    constructor (configured: real)
      ensures Ok() && order == [] && entries == map[]
      ensures 0.0 <= ttl <= 30.0 && (0.0 <= configured <= 30.0 ==> ttl == configured)
      ensures (configured < 0.0 ==> ttl == 0.0) && (configured > 30.0 ==> ttl == 30.0)
    {
      order, entries := [], map[];
      ttl := if configured < 0.0 then 0.0 else MinReal(30.0, configured);
    }

    /** The first atomic section: answer from the cache or fall through. */
    method Get(key: Key, mono: real) returns (roles: Option<seq<string>>)
      requires Ok()
      modifies this
      ensures Ok() && Cache(order, entries) == old(AfterLookup(Cache(order, entries), key, mono))
      ensures roles.Some? <==> old(IsHit(Cache(order, entries), key, mono))
      ensures roles.Some? ==> roles.value == old(entries)[key].roles
    {
      if key in entries && entries[key].expiry > mono {
        WithoutFacts(order, key);
        order := Without(order, key) + [key];
        return Some(entries[key].roles);
      }
      return None;
    }

    /** The last atomic section: store, refresh the position, evict down to capacity. */
    method Put(key: Key, mono: real, remaining: real, roles: seq<string>) returns (stored: bool)
      requires Ok()
      modifies this
      ensures Ok() && Cache(order, entries) == old(AfterStore(Cache(order, entries), key, mono, remaining, roles, ttl))
      ensures stored <==> remaining > 0.0
    {
      if remaining <= 0.0 {
        return false;
      }
      ghost var start := Cache(order, entries);
      StoreIsValid(start, key, mono, remaining, roles, ttl);
      entries := entries[key := Entry(mono + MinReal(ttl, remaining), roles)];
      order := Without(order, key) + [key];
      ghost var full, all := order, entries;
      while |order| > CAPACITY
        invariant |order| <= |full| && order == full[|full| - |order|..]
        invariant |order| < |full| ==> |order| >= CAPACITY
        invariant entries == Restrict(all, order)
        decreases |order|
      {
        EvictOldest(all, full, |full| - |order|);
        entries := entries - {order[0]};
        order := order[1..];
      }
      assert order == LastN(full, CAPACITY);
      assert AfterStore(start, key, mono, remaining, roles, ttl) == Cache(order, entries);
      return true;
    }
  }

  // ---------------------------------------------------------------- sequences

  lemma EvictOldest(all: map<Key, Entry>, full: seq<Key>, n: nat)
    requires n < |full| && NoDuplicates(full)
    ensures Restrict(all, full[n..]) - {full[n]} == Restrict(all, full[n + 1..])
  {
  }

  lemma StoreIsValid(c: Cache, key: Key, mono: real, remaining: real, roles: seq<string>, ttl: real)
    requires Valid(c)
    ensures Valid(AfterStore(c, key, mono, remaining, roles, ttl))
    ensures var full := Without(c.order, key) + [key];
            var all := c.entries[key := Entry(mono + MinReal(ttl, remaining), roles)];
            NoDuplicates(full) && all == Restrict(all, full)
  {
    WithoutFacts(c.order, key);
    LastNKeepsDistinct(Without(c.order, key) + [key]);
  }

  lemma LastNKeepsDistinct(s: seq<Key>)
    requires NoDuplicates(s)
    ensures NoDuplicates(LastN(s, CAPACITY)) && |LastN(s, CAPACITY)| <= CAPACITY
    ensures forall k :: k in LastN(s, CAPACITY) ==> k in s
  {
  }

  lemma {:induction false} WithoutFacts(order: seq<Key>, key: Key)
    requires NoDuplicates(order)
    ensures NoDuplicates(Without(order, key)) && NoDuplicates(Without(order, key) + [key])
    ensures |Without(order, key)| == |order| - if key in order then 1 else 0
    ensures key !in order ==> Without(order, key) == order
  {
    if order != [] {
      var rest := order[1..];
      WithoutFacts(rest, key);
      assert order[0] !in rest;
      assert order == [order[0]] + rest;
    }
  }

  lemma {:induction false} WithoutAppend(a: seq<Key>, b: seq<Key>, key: Key)
    ensures Without(a + b, key) == Without(a, key) + Without(b, key)
  {
    if a == [] {
      assert a + b == b;
    } else {
      assert (a + b)[0] == a[0] && (a + b)[1..] == a[1..] + b;
      WithoutAppend(a[1..], b, key);
    }
  }

  // ---------------------------------------------------------------- touches

  /** Does event `i` touch its key?  A hit does, and so does an accepted store. */
  predicate Touches(history: seq<Event>, i: nat, ttl: real)
    requires i < |history|
  {
    match history[i]
    case Lookup(key, mono) => IsHit(Run(history[..i], ttl), key, mono)
    case Store(_, _, remaining, _) => remaining > 0.0
  }

  /** The index of the last touch of `key`, or -1. */
  function LastTouch(history: seq<Event>, key: Key, ttl: real): (i: int)
    ensures -1 <= i < |history|
  {
    if history == [] then -1
    else
      var n := |history| - 1;
      if Touches(history, n, ttl) && history[n].key == key then n else LastTouch(history[..n], key, ttl)
  }

  lemma TouchesInPrefix(history: seq<Event>, n: nat, i: nat, ttl: real)
    requires i < n <= |history|
    ensures Touches(history[..n], i, ttl) == Touches(history, i, ttl)
  {
    assert history[..n][..i] == history[..i];
  }

  lemma {:induction false} LastTouchTouches(history: seq<Event>, key: Key, ttl: real)
    requires LastTouch(history, key, ttl) >= 0
    ensures var i := LastTouch(history, key, ttl);
            Touches(history, i, ttl) && history[i].key == key
  {
    var n := |history| - 1;
    if LastTouch(history, key, ttl) < n {
      LastTouchTouches(history[..n], key, ttl);
      TouchesInPrefix(history, n, LastTouch(history, key, ttl), ttl);
    }
  }

  lemma {:induction false} NoTouchAfterTheLast(history: seq<Event>, key: Key, ttl: real, j: nat)
    requires LastTouch(history, key, ttl) < j < |history| && Touches(history, j, ttl)
    ensures history[j].key != key
  {
    var n := |history| - 1;
    if j < n {
      TouchesInPrefix(history, n, j, ttl);
      NoTouchAfterTheLast(history[..n], key, ttl, j);
    }
  }

  /** All touched keys, least recently touched first: what an unbounded cache would hold. */
  function Recency(history: seq<Event>, ttl: real): seq<Key> {
    if history == [] then []
    else
      var n := |history| - 1;
      var r := Recency(history[..n], ttl);
      if Touches(history, n, ttl) then Without(r, history[n].key) + [history[n].key] else r
  }

  lemma LastTouchStep(history: seq<Event>, ttl: real)
    requires history != []
    ensures forall key :: LastTouch(history, key, ttl) ==
              if Touches(history, |history| - 1, ttl) && history[|history| - 1].key == key
              then |history| - 1 else LastTouch(history[..|history| - 1], key, ttl)
  {
  }

  /** `Recency` is exactly the set of touched keys in the order of their last touch. */
  lemma {:induction false} RecencyIsByLastTouch(history: seq<Event>, ttl: real)
    ensures NoDuplicates(Recency(history, ttl))
    ensures forall k :: k in Recency(history, ttl) <==> LastTouch(history, k, ttl) >= 0
    ensures ByLastTouch(Recency(history, ttl), history, ttl)
  {
    if history != [] {
      var n := |history| - 1;
      var before := history[..n];
      RecencyIsByLastTouch(before, ttl);
      LastTouchStep(history, ttl);
      var r := Recency(before, ttl);
      if Touches(history, n, ttl) {
        var key := history[n].key;
        WithoutFacts(r, key);
        WithoutKeepsOrder(r, key, before, ttl);
        AppendKeepsOrder(Without(r, key), key, before, history, ttl);
      } else {
        SameOrder(r, before, history, ttl);
      }
    }
  }

  lemma SameOrder(r: seq<Key>, before: seq<Event>, history: seq<Event>, ttl: real)
    requires ByLastTouch(r, before, ttl)
    requires forall k :: k in r ==> LastTouch(history, k, ttl) == LastTouch(before, k, ttl)
    ensures ByLastTouch(r, history, ttl)
  {
  }

  lemma AppendKeepsOrder(r: seq<Key>, key: Key, before: seq<Event>, history: seq<Event>, ttl: real)
    requires ByLastTouch(r, before, ttl)
    requires forall k :: k in r ==> LastTouch(history, k, ttl) == LastTouch(before, k, ttl)
    requires LastTouch(history, key, ttl) == |before|
    ensures ByLastTouch(r + [key], history, ttl)
  {
  }

  ghost predicate ByLastTouch(r: seq<Key>, history: seq<Event>, ttl: real) {
    forall i, j :: 0 <= i < j < |r| ==> LastTouch(history, r[i], ttl) < LastTouch(history, r[j], ttl)
  }

  lemma {:induction false} WithoutKeepsOrder(r: seq<Key>, key: Key, history: seq<Event>, ttl: real)
    requires ByLastTouch(r, history, ttl)
    ensures ByLastTouch(Without(r, key), history, ttl)
  {
    if r != [] {
      WithoutKeepsOrder(r[1..], key, history, ttl);
      var w := Without(r[1..], key);
      forall k | k in w ensures LastTouch(history, r[0], ttl) < LastTouch(history, k, ttl) {
        assert k in r[1..];
      }
    }
  }

  /** Moving a key to the front of a trimmed list, or adding it and trimming again, equals trimming the full list. */
  lemma TouchCommutesWithTrim(r: seq<Key>, key: Key)
    requires NoDuplicates(r)
    ensures LastN(Without(LastN(r, CAPACITY), key) + [key], CAPACITY) == LastN(Without(r, key) + [key], CAPACITY)
  {
    var kept := LastN(r, CAPACITY);
    if |r| > CAPACITY {
      var cut := r[..|r| - CAPACITY];
      assert r == cut + kept;
      WithoutAppend(cut, kept, key);
      WithoutFacts(cut, key);
      WithoutFacts(kept, key);
      assert !(key in cut && key in kept);
      var full, short := Without(r, key) + [key], Without(kept, key) + [key];
      assert full == Without(cut, key) + short;
      assert |short| >= CAPACITY;
    }
  }

  lemma {:induction false} RunIsValid(history: seq<Event>, ttl: real)
    ensures Valid(Run(history, ttl))
  {
    if history != [] {
      var n := |history| - 1;
      RunIsValid(history[..n], ttl);
      WithoutFacts(Run(history[..n], ttl).order, history[n].key);
    }
  }

  lemma {:induction false} OrderIsTrimmedRecency(history: seq<Event>, ttl: real)
    ensures Run(history, ttl).order == LastN(Recency(history, ttl), CAPACITY)
  {
    if history != [] {
      var n := |history| - 1;
      var before, key := history[..n], history[n].key;
      OrderIsTrimmedRecency(before, ttl);
      RunIsValid(before, ttl);
      if Touches(history, n, ttl) {
        RecencyIsByLastTouch(before, ttl);
        TouchCommutesWithTrim(Recency(before, ttl), key);
        WithoutFacts(Run(before, ttl).order, key);
        assert |Without(Run(before, ttl).order, key) + [key]| <= CAPACITY || history[n].Store?;
      }
    }
  }

  /** The keys touched later than `key`. */
  ghost predicate MoreRecent(history: seq<Event>, later: set<Key>, key: Key, ttl: real) {
    forall k :: k in later <==> LastTouch(history, k, ttl) > LastTouch(history, key, ttl)
  }

  function Elements(s: seq<Key>): (e: set<Key>)
    ensures forall k :: k in e <==> k in s
    ensures NoDuplicates(s) ==> |e| == |s|
  {
    if s == [] then {}
    else
      var e := Elements(s[1..]);
      assert NoDuplicates(s) ==> NoDuplicates(s[1..]) && s[0] !in e;
      e + {s[0]}
  }

  /**
   In every interleaving the cache holds exactly the 1024 most recently touched keys, in
   the order of their last touch: a key is cached iff it was touched and fewer than 1024
   other keys have been touched since.
   */
  lemma {:induction false} HoldsTheMostRecentKeys(history: seq<Event>, ttl: real, key: Key, later: set<Key>)
    requires MoreRecent(history, later, key, ttl)
    ensures key in Run(history, ttl).entries <==> LastTouch(history, key, ttl) >= 0 && |later| < CAPACITY
    ensures ByLastTouch(Run(history, ttl).order, history, ttl)
  {
    RunIsValid(history, ttl);
    OrderIsTrimmedRecency(history, ttl);
    RecencyIsByLastTouch(history, ttl);
    var r := Recency(history, ttl);
    if key in r {
      var p :| 0 <= p < |r| && r[p] == key;
      LaterKeysAreTheTail(history, ttl, r, p, later);
      InLastN(r, p, CAPACITY);
    }
  }

  lemma LaterKeysAreTheTail(history: seq<Event>, ttl: real, r: seq<Key>, p: nat, later: set<Key>)
    requires p < |r| && NoDuplicates(r) && ByLastTouch(r, history, ttl)
    requires forall k :: k in r <==> LastTouch(history, k, ttl) >= 0
    requires MoreRecent(history, later, r[p], ttl)
    ensures |later| == |r| - p - 1
  {
    var tail := r[p + 1..];
    forall k ensures k in later <==> k in Elements(tail) {
      LaterIffBehind(history, ttl, r, p, k);
    }
    TailSize(r, p);
    assert later == Elements(tail);
  }

  lemma TailSize(r: seq<Key>, p: nat)
    requires p < |r| && NoDuplicates(r)
    ensures |Elements(r[p + 1..])| == |r| - p - 1
  {
    assert NoDuplicates(r[p + 1..]);
  }

  lemma LaterIffBehind(history: seq<Event>, ttl: real, r: seq<Key>, p: nat, k: Key)
    requires p < |r| && ByLastTouch(r, history, ttl)
    requires k in r <==> LastTouch(history, k, ttl) >= 0
    requires r[p] in r <==> LastTouch(history, r[p], ttl) >= 0
    ensures k in r[p + 1..] <==> LastTouch(history, k, ttl) > LastTouch(history, r[p], ttl)
  {
  }

  lemma InLastN(r: seq<Key>, p: nat, n: nat)
    requires p < |r| && NoDuplicates(r)
    ensures r[p] in LastN(r, n) <==> |r| - p - 1 < n
  {
  }

  // ---------------------------------------------------------------- freshness

  /** The last accepted store of `key`, or -1. */
  function LastStore(history: seq<Event>, key: Key): (i: int)
    ensures -1 <= i < |history|
    ensures i >= 0 ==> history[i].Store? && history[i].key == key && history[i].remaining > 0.0
    ensures forall j :: i < j < |history| && history[j].Store? && history[j].remaining > 0.0 ==> history[j].key != key
  {
    if history == [] then -1
    else
      var n := |history| - 1;
      if history[n].Store? && history[n].key == key && history[n].remaining > 0.0 then n
      else LastStore(history[..n], key)
  }

  lemma {:induction false} EntriesComeFromLastStore(history: seq<Event>, ttl: real, key: Key)
    requires key in Run(history, ttl).entries
    ensures var i := LastStore(history, key);
            && i >= 0
            && Run(history, ttl).entries[key]
               == Entry(history[i].mono + MinReal(ttl, history[i].remaining), history[i].roles)
  {
    var n := |history| - 1;
    if !(history[n].Store? && history[n].remaining > 0.0 && history[n].key == key) {
      EntriesComeFromLastStore(history[..n], ttl, key);
    }
  }

  /**
   Exactly when a lookup hits: fewer than 1024 other keys have been touched since the key
   was, and less than the TTL, and than the token's remaining life, has passed since its
   last accepted store.
   */
  lemma {:induction false} HitIff(history: seq<Event>, ttl: real, key: Key, later: set<Key>, now: real)
    requires MoreRecent(history, later, key, ttl)
    ensures var i := LastStore(history, key);
            IsHit(Run(history, ttl), key, now) <==>
              && LastTouch(history, key, ttl) >= 0 && |later| < 1024
              && i >= 0 && now - history[i].mono < ttl && now - history[i].mono < history[i].remaining
  {
    HoldsTheMostRecentKeys(history, ttl, key, later);
    if key in Run(history, ttl).entries {
      EntriesComeFromLastStore(history, ttl, key);
    }
  }

  /**
   A hit returns the roles of the last accepted store for that issuer and token, and that
   store happened less than min(TTL, remaining token life) before the hit.
   */
  lemma {:induction false} HitIsFresh(history: seq<Event>, ttl: real, key: Key, now: real)
    requires IsHit(Run(history, ttl), key, now)
    ensures var i := LastStore(history, key);
            && i >= 0
            && Run(history, ttl).entries[key].roles == history[i].roles
            && now - history[i].mono < MinReal(ttl, history[i].remaining)
  {
    EntriesComeFromLastStore(history, ttl, key);
  }
}
