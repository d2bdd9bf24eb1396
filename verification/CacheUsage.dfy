/** src/cache.py:9-15: the documented usage, look up and on a miss compute and put, run on two
    capacities side by side. Inclusion, which holds for equal operations, need not hold here,
    because the smaller cache puts again what it had to evict. */
module CacheUsage {
  import opened Sequences
  import opened Lru

  /** The lookup reads the clock first; a miss stores the value at a second reading. */
  datatype Request<V, T> = Request(key: Key, value: V, tag: T, askedAt: real, storedAt: real, ttl: real)

  function ToPut<V, T>(q: Request<V, T>): Op<V, T> { Op.Put(q.key, q.value, q.tag, q.storedAt, q.ttl) }

  function Served<V, T>(st: State<V, T>, q: Request<V, T>, capacity: nat): State<V, T> {
    var looked := Step(st, Op.Get(q.key, q.askedAt), capacity);
    if Hit(st.entries, q.key, q.askedAt).Some? then looked else Step(looked, ToPut(q), capacity)
  }

  function ServedAll<V, T>(reqs: seq<Request<V, T>>, capacity: nat): State<V, T> {
    if reqs == [] then Empty()
    else Served(ServedAll(reqs[..|reqs| - 1], capacity), reqs[|reqs| - 1], capacity)
  }

  lemma {:induction false} ServedSound<V, T>(reqs: seq<Request<V, T>>, capacity: nat)
    ensures Sound(ServedAll(reqs, capacity), capacity)
  {
    if reqs != [] {
      var before, q := ServedAll(reqs[..|reqs| - 1], capacity), reqs[|reqs| - 1];
      ServedSound(reqs[..|reqs| - 1], capacity);
      SoundStep(before, Op.Get(q.key, q.askedAt), capacity);
      SoundStep(Step(before, Op.Get(q.key, q.askedAt), capacity), ToPut(q), capacity);
    }
  }

  // ---------------------------------------------------------------------------------------
  // Which keys are cached.

  function KeyOrder<V, T>(s: seq<Entry<V, T>>): seq<Key> {
    seq(|s|, i requires 0 <= i < |s| => s[i].key)
  }

  function Is(key: Key): Key -> bool { (k: Key) => k == key }

  /** The key becomes the most recent one. */
  function Renewed(order: seq<Key>, key: Key): seq<Key> { Reject(order, Is(key)) + [key] }

  /** The requested keys by their last request, oldest first. */
  function Requested<V, T>(reqs: seq<Request<V, T>>): seq<Key> {
    if reqs == [] then [] else Renewed(Requested(reqs[..|reqs| - 1]), reqs[|reqs| - 1].key)
  }

  function Newest<X>(s: seq<X>, n: nat): seq<X> { if |s| > n then s[|s| - n..] else s }

  lemma {:induction false} KeyOrderDelete<V, T>(s: seq<Entry<V, T>>, key: Key)
    ensures KeyOrder(Delete(s, key)) == Reject(KeyOrder(s), Is(key))
  {
    if s != [] {
      KeyOrderDelete(s[1..], key);
      assert KeyOrder(s) == [s[0].key] + KeyOrder(s[1..]);
    }
  }

  lemma KeyOrderFinds<V, T>(s: seq<Entry<V, T>>, key: Key)
    ensures key in KeyOrder(s) <==> Lookup(s, key).Some?
  {
    LookupFinds(s, key);
    if key in KeyOrder(s) {
      var i :| 0 <= i < |s| && KeyOrder(s)[i] == key;
      assert s[i] in s;
    }
    if e :| e in s && e.key == key {
      var i :| 0 <= i < |s| && s[i] == e;
      assert KeyOrder(s)[i] == key;
    }
  }

  lemma {:induction false} RejectKey(order: seq<Key>, key: Key)
    requires Distinct(order)
    ensures |Reject(order, Is(key))| == |order| - (if key in order then 1 else 0)
    ensures Distinct(Reject(order, Is(key)))
    ensures key !in Reject(order, Is(key))
  {
    RejectMembers(order, Is(key));
    if order != [] {
      var rest := order[1..];
      RejectKey(rest, key);
      RejectMembers(rest, Is(key));
      assert order == [order[0]] + rest && order[0] !in rest;
    }
  }

  lemma {:induction false} RequestedDistinct<V, T>(reqs: seq<Request<V, T>>)
    ensures Distinct(Requested(reqs))
  {
    if reqs != [] {
      RequestedDistinct(reqs[..|reqs| - 1]);
      RejectKey(Requested(reqs[..|reqs| - 1]), reqs[|reqs| - 1].key);
    }
  }

  lemma NewestEnough<X>(a: seq<X>, b: seq<X>, n: nat)
    requires |b| >= n
    ensures Newest(a + b, n) == Newest(b, n)
  {
  }

  /** Renewing a key and forgetting the oldest can be done on the newest keys alone. */
  lemma RenewNewest(order: seq<Key>, key: Key, n: nat)
    requires Distinct(order)
    ensures Newest(Renewed(order, key), n) == Newest(Renewed(Newest(order, n), key), n)
  {
    if |order| > n {
      var left, recent := order[..|order| - n], Newest(order, n);
      assert order == left + recent;
      RejectAppend(left, recent, Is(key));
      RejectKey(recent, key);
      if key in recent {
        RejectNothing(left, Is(key));
      }
      NewestEnough(Reject(left, Is(key)), Renewed(recent, key), n);
      assert Renewed(order, key) == Reject(left, Is(key)) + Renewed(recent, key);
    }
  }

  lemma KeyOrderEvict<V, T>(s: seq<Entry<V, T>>, capacity: nat)
    ensures KeyOrder(Evict(s, capacity)) == Newest(KeyOrder(s), capacity)
  {
  }

  /** The entry that a request finds or stores. */
  function Answer<V, T>(st: State<V, T>, q: Request<V, T>): Entry<V, T> {
    match Hit(st.entries, q.key, q.askedAt)
    case Some(found) => found
    case None => Stored(ToPut(q))
  }

  /** Hit or miss, that entry ends up last, and the oldest are evicted. */
  lemma ServedEntries<V, T>(st: State<V, T>, q: Request<V, T>, capacity: nat)
    requires Sound(st, capacity)
    ensures Answer(st, q).key == q.key
    ensures Served(st, q, capacity).entries == Evict(Delete(st.entries, q.key) + [Answer(st, q)], capacity)
  {
    LookupFinds(st.entries, q.key);
    if Hit(st.entries, q.key, q.askedAt).Some? {
      DeleteLength(st.entries, q.key);
    } else {
      DeleteMembers(st.entries, q.key);
      RejectNothing(Delete(st.entries, q.key), HasKey(q.key));
    }
  }

  /** Hit or miss, a request makes its key the most recent and leaves the newest keys. */
  lemma ServedKeys<V, T>(st: State<V, T>, q: Request<V, T>, capacity: nat)
    requires Sound(st, capacity)
    ensures KeyOrder(Served(st, q, capacity).entries) == Newest(Renewed(KeyOrder(st.entries), q.key), capacity)
  {
    ServedEntries(st, q, capacity);
    var moved := Delete(st.entries, q.key) + [Answer(st, q)];
    KeyOrderDelete(st.entries, q.key);
    KeyOrderEvict(moved, capacity);
    assert KeyOrder(moved) == KeyOrder(Delete(st.entries, q.key)) + [q.key];
  }

  /** The cached keys are the most recently requested ones, whatever expired in between. */
  lemma {:induction false} KeysAreNewest<V, T>(reqs: seq<Request<V, T>>, capacity: nat)
    ensures KeyOrder(ServedAll(reqs, capacity).entries) == Newest(Requested(reqs), capacity)
  {
    if reqs != [] {
      var before, q := reqs[..|reqs| - 1], reqs[|reqs| - 1];
      KeysAreNewest(before, capacity);
      ServedSound(before, capacity);
      ServedKeys(ServedAll(before, capacity), q, capacity);
      RequestedDistinct(before);
      RenewNewest(Requested(before), q.key, capacity);
    }
  }

  /** So the smaller cache's keys are the most recent ones of the larger's. */
  lemma SmallerHoldsNewest<V, T>(reqs: seq<Request<V, T>>, m: nat, n: nat)
    requires m <= n
    ensures KeyOrder(ServedAll(reqs, m).entries) == Newest(KeyOrder(ServedAll(reqs, n).entries), m)
  {
    KeysAreNewest(reqs, m);
    KeysAreNewest(reqs, n);
    var order := Requested(reqs);
    assert Newest(Newest(order, n), m) == Newest(order, m);
  }

  /** The two caches can differ on a key of the smaller one only by expiry: at `now` the smaller
      hits alone exactly when the larger's entry is past its expiry and its own is not. */
  lemma HitsAlone<V, T>(reqs: seq<Request<V, T>>, key: Key, now: real, m: nat, n: nat)
    requires m <= n
    ensures var small, large := ServedAll(reqs, m).entries, ServedAll(reqs, n).entries;
            && (Lookup(small, key).Some? ==> Lookup(large, key).Some?)
            && (Hit(small, key, now).Some? && Hit(large, key, now).None? <==>
                  Lookup(small, key).Some? && Lookup(large, key).value.expiresAt < now <= Lookup(small, key).value.expiresAt)
  {
    SmallerHoldsNewest(reqs, m, n);
    KeyOrderFinds(ServedAll(reqs, m).entries, key);
    KeyOrderFinds(ServedAll(reqs, n).entries, key);
  }

  // ---------------------------------------------------------------------------------------
  // When a smaller cache never hits alone.

  /** One time-to-live for all, and a clock that never goes back, up to `now`. */
  ghost predicate OnOneClock<V, T>(reqs: seq<Request<V, T>>, ttl: real, now: real) {
    reqs == [] ||
    (var q := reqs[|reqs| - 1];
     q.ttl == ttl && q.askedAt <= q.storedAt <= now && OnOneClock(reqs[..|reqs| - 1], ttl, q.askedAt))
  }

  /** At `now`, every hit of the smaller cache is one of the larger. */
  predicate HitsIncluded<V, T>(reqs: seq<Request<V, T>>, key: Key, now: real, m: nat, n: nat) {
    Hit(ServedAll(reqs, m).entries, key, now).Some? ==> Hit(ServedAll(reqs, n).entries, key, now).Some?
  }

  /** Every entry was stored by now. */
  lemma {:induction false} StoredInPast<V, T>(reqs: seq<Request<V, T>>, ttl: real, now: real, capacity: nat)
    requires OnOneClock(reqs, ttl, now)
    ensures forall e :: e in ServedAll(reqs, capacity).entries ==> e.expiresAt <= now + ttl
  {
    if reqs != [] {
      var q := reqs[|reqs| - 1];
      StoredInPast(reqs[..|reqs| - 1], ttl, q.askedAt, capacity);
      ServedOrigins(ServedAll(reqs[..|reqs| - 1], capacity), q, capacity);
    }
  }

  lemma ServedOrigins<V, T>(st: State<V, T>, q: Request<V, T>, capacity: nat)
    ensures forall e :: e in Served(st, q, capacity).entries ==> e in st.entries || e == Stored(ToPut(q))
  {
    StepOrigins(st, Op.Get(q.key, q.askedAt), capacity);
    StepOrigins(Step(st, Op.Get(q.key, q.askedAt), capacity), ToPut(q), capacity);
  }

  function Name(i: nat): Key { seq(i, _ => 'k') }

  function Names(n: nat): seq<Key> { seq(n, i requires 0 <= i < n => Name(i)) }

  /** The first `n` names are requested, all at time 0. */
  function Sweep<V, T>(n: nat, value: V, tag: T, ttl: real): seq<Request<V, T>> {
    seq(n, i requires 0 <= i < n => Request(Name(i), value, tag, 0.0, 0.0, ttl))
  }

  lemma {:induction false} SweepKeys<V, T>(n: nat, value: V, tag: T, ttl: real)
    ensures Requested(Sweep(n, value, tag, ttl)) == Names(n)
  {
    if n > 0 {
      var reqs := Sweep(n, value, tag, ttl);
      SweepKeys(n - 1, value, tag, ttl);
      assert reqs[..n - 1] == Sweep(n - 1, value, tag, ttl);
      var names, last := Names(n - 1), Name(n - 1);
      forall k | k in names ensures !Is(last)(k) {
        assert |k| < n - 1 == |last|;
      }
      RejectNothing(names, Is(last));
      assert Names(n) == names + [last];
    }
  }

  lemma {:induction false} SweepTimes<V, T>(n: nat, value: V, tag: T, ttl: real, capacity: nat)
    ensures OnOneClock(Sweep(n, value, tag, ttl), ttl, 0.0)
    ensures forall e :: e in ServedAll(Sweep(n, value, tag, ttl), capacity).entries ==> e.expiresAt == ttl
  {
    if n > 0 {
      var reqs := Sweep(n, value, tag, ttl);
      SweepTimes(n - 1, value, tag, ttl, capacity);
      assert reqs[..n - 1] == Sweep(n - 1, value, tag, ttl);
      ServedOrigins(ServedAll(reqs[..n - 1], capacity), reqs[n - 1], capacity);
    }
  }

  /** After the sweep the smaller cache has lost the first name and the larger has not. */
  lemma SweepEvicts<V, T>(m: nat, n: nat, value: V, tag: T, ttl: real)
    requires 0 < m < n
    ensures var reqs := Sweep(m + 1, value, tag, ttl);
            && Lookup(ServedAll(reqs, m).entries, Name(0)).None?
            && Lookup(ServedAll(reqs, n).entries, Name(0)).Some?
            && Lookup(ServedAll(reqs, n).entries, Name(0)).value.expiresAt == ttl
  {
    var reqs := Sweep(m + 1, value, tag, ttl);
    SweepKeys(m + 1, value, tag, ttl);
    KeysAreNewest(reqs, m);
    KeysAreNewest(reqs, n);
    KeyOrderFinds(ServedAll(reqs, m).entries, Name(0));
    KeyOrderFinds(ServedAll(reqs, n).entries, Name(0));
    var names, first := Names(m + 1), Name(0);
    assert names[0] == first;
    forall i | 0 < i < |names| ensures names[i] != first {
      assert |names[i]| == i && |first| == 0;
    }
    SweepTimes(m + 1, value, tag, ttl, n);
    LookupFinds(ServedAll(reqs, n).entries, Name(0));
  }

  /** A request that the larger cache still answers at time 0 and the smaller stores at time 1. */
  lemma SmallerStoresAgain<V, T>(small: State<V, T>, large: State<V, T>, q: Request<V, T>, m: nat, n: nat, ttl: real)
    requires Sound(small, m) && Sound(large, n) && 0 < m && ttl >= 0.0
    requires q.askedAt == 0.0 && q.storedAt == 1.0 && q.ttl == ttl
    requires Lookup(small.entries, q.key).None?
    requires Lookup(large.entries, q.key).Some? && Lookup(large.entries, q.key).value.expiresAt == ttl
    ensures Hit(Served(small, q, m).entries, q.key, 1.0 + ttl).Some?
    ensures Hit(Served(large, q, n).entries, q.key, 1.0 + ttl).None?
  {
    var e := Lookup(large.entries, q.key).value;
    LookupFinds(large.entries, q.key);
    LookupLast(large.entries, e);
    var looked := Step(small, Op.Get(q.key, 0.0), m);
    SoundStep(small, Op.Get(q.key, 0.0), m);
    Refreshed(looked.entries, Stored(ToPut(q)), q.key, m);
  }

  lemma ServedLast<V, T>(reqs: seq<Request<V, T>>, q: Request<V, T>, capacity: nat)
    ensures ServedAll(reqs + [q], capacity) == Served(ServedAll(reqs, capacity), q, capacity)
  {
    assert (reqs + [q])[..|reqs|] == reqs;
  }

  /** Under the documented usage, with one time-to-live and a clock that never goes back, a smaller
      cache never hits alone if and only if it is empty or as large, or nothing outlives its own
      storing. */
  lemma HitsIncludedExactly<V(!new), T(!new)>(m: nat, n: nat, ttl: real, value: V, tag: T)
    requires m <= n
    ensures (forall reqs: seq<Request<V, T>>, key, now :: OnOneClock(reqs, ttl, now) ==> HitsIncluded(reqs, key, now, m, n))
       <==> m == 0 || m == n || ttl < 0.0
  {
    if m == 0 || m == n || ttl < 0.0 {
      forall reqs: seq<Request<V, T>>, key, now | OnOneClock(reqs, ttl, now)
        ensures HitsIncluded(reqs, key, now, m, n)
      {
        LookupFinds(ServedAll(reqs, m).entries, key);
        StoredInPast(reqs, ttl, now, m);
        ServedSound(reqs, m);
      }
    } else {
      var sweep := Sweep(m + 1, value, tag, ttl);
      var again := Request(Name(0), value, tag, 0.0, 1.0, ttl);
      var reqs := sweep + [again];
      ServedLast(sweep, again, m);
      ServedLast(sweep, again, n);
      assert reqs[..m + 1] == sweep;
      SweepEvicts(m, n, value, tag, ttl);
      SweepTimes(m + 1, value, tag, ttl, n);
      ServedSound(sweep, m);
      ServedSound(sweep, n);
      SmallerStoresAgain(ServedAll(sweep, m), ServedAll(sweep, n), again, m, n, ttl);
      assert OnOneClock(reqs, ttl, 1.0 + ttl) && !HitsIncluded(reqs, again.key, 1.0 + ttl, m, n);
    }
  }
}
