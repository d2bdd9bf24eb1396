/** The least-recently-used core shared by the two query caches: an insertion-ordered
    dictionary with per-entry expiry, the operations both caches run on it, and the
    properties that every run of those operations keeps. */
module Lru {
  import opened Sequences

  type Key = string

  datatype Entry<V, T> = Entry(key: Key, value: V, expiresAt: real, tag: T)

  // ---------------------------------------------------------------------------------------
  // The insertion-ordered dictionary: a sequence of entries with distinct keys, oldest first.

  ghost predicate Unique<V, T>(s: seq<Entry<V, T>>) {
    forall i, j :: 0 <= i < j < |s| ==> s[i].key != s[j].key
  }

  function Lookup<V, T>(s: seq<Entry<V, T>>, key: Key): Option<Entry<V, T>> {
    if s == [] then None
    else if s[0].key == key then Some(s[0])
    else Lookup(s[1..], key)
  }

  function HasKey<V, T>(key: Key): Entry<V, T> -> bool {
    (e: Entry<V, T>) => e.key == key
  }

  function Delete<V, T>(s: seq<Entry<V, T>>, key: Key): seq<Entry<V, T>> {
    Reject(s, HasKey(key))
  }

  function MoveToEnd<V, T>(s: seq<Entry<V, T>>, key: Key): seq<Entry<V, T>> {
    match Lookup(s, key)
    case None => s
    case Some(e) => Delete(s, key) + [e]
  }

  /** Item assignment: in place when the key is present, at the end otherwise. */
  function Assign<V, T>(s: seq<Entry<V, T>>, e: Entry<V, T>): seq<Entry<V, T>> {
    if s == [] then [e]
    else if s[0].key == e.key then [e] + s[1..]
    else [s[0]] + Assign(s[1..], e)
  }

  function KeysWhere<V, T>(s: seq<Entry<V, T>>, p: Entry<V, T> -> bool): seq<Key> {
    if s == [] then []
    else (if p(s[0]) then [s[0].key] else []) + KeysWhere(s[1..], p)
  }

  function DeleteKeys<V, T>(s: seq<Entry<V, T>>, keys: seq<Key>): seq<Entry<V, T>>
    decreases keys
  {
    if keys == [] then s else DeleteKeys(Delete(s, keys[0]), keys[1..])
  }

  lemma {:induction false} LookupFinds<V, T>(s: seq<Entry<V, T>>, key: Key)
    ensures match Lookup(s, key)
            case None => forall e :: e in s ==> e.key != key
            case Some(e) => e in s && e.key == key
  {
    if s != [] {
      LookupFinds(s[1..], key);
      assert s == [s[0]] + s[1..];
    }
  }

  lemma LookupUnique<V, T>(s: seq<Entry<V, T>>, e: Entry<V, T>)
    requires Unique(s) && e in s
    ensures Lookup(s, e.key) == Some(e)
  {
    LookupFinds(s, e.key);
  }

  lemma {:induction false} UniqueReject<V, T>(s: seq<Entry<V, T>>, p: Entry<V, T> -> bool)
    requires Unique(s)
    ensures Unique(Reject(s, p))
  {
    if s != [] {
      UniqueReject(s[1..], p);
      RejectMembers(s[1..], p);
      var rest := Reject(s[1..], p);
      forall i | 0 <= i < |rest| ensures rest[i].key != s[0].key {
        assert rest[i] in s[1..];
      }
    }
  }

  lemma DeleteMembers<V, T>(s: seq<Entry<V, T>>, key: Key)
    ensures forall e :: e in Delete(s, key) ==> e in s && e.key != key
    ensures forall e :: e in s && e.key != key ==> e in Delete(s, key)
    ensures Unique(s) ==> Unique(Delete(s, key))
  {
    RejectMembers(s, HasKey(key));
    if Unique(s) {
      UniqueReject(s, HasKey(key));
    }
  }

  lemma DeleteLength<V, T>(s: seq<Entry<V, T>>, key: Key)
    requires Unique(s)
    ensures |Delete(s, key)| == |s| - (if Lookup(s, key).Some? then 1 else 0)
  {
    if s != [] {
      if s[0].key == key {
        RejectNothing(s[1..], HasKey(key));
      } else {
        DeleteLength(s[1..], key);
      }
    }
  }

  lemma {:induction false} AssignAtEnd<V, T>(s: seq<Entry<V, T>>, e: Entry<V, T>)
    requires forall x :: x in s ==> x.key != e.key
    ensures Assign(s, e) == s + [e]
  {
    if s != [] {
      AssignAtEnd(s[1..], e);
    }
  }

  lemma {:induction false} AssignSkips<V, T>(s: seq<Entry<V, T>>, was: Entry<V, T>, e: Entry<V, T>)
    requires (forall x :: x in s ==> x.key != e.key) && was.key == e.key
    ensures Assign(s + [was], e) == s + [e]
  {
    if s != [] {
      AssignSkips(s[1..], was, e);
      assert (s + [was])[1..] == s[1..] + [was];
    }
  }

  /** Both ways of storing (refresh and insert) leave the new entry last and nothing else
      with its key. */
  lemma MoveThenAssign<V, T>(s: seq<Entry<V, T>>, e: Entry<V, T>)
    ensures Assign(MoveToEnd(s, e.key), e) == Delete(s, e.key) + [e]
  {
    LookupFinds(s, e.key);
    DeleteMembers(s, e.key);
    match Lookup(s, e.key)
    case None =>
      RejectNothing(s, HasKey(e.key));
      AssignAtEnd(s, e);
    case Some(was) =>
      AssignSkips(Delete(s, e.key), was, e);
  }

  function KeyIn<V, T>(keys: seq<Key>): Entry<V, T> -> bool {
    (e: Entry<V, T>) => e.key in keys
  }

  lemma {:induction false} RejectTwice<X>(s: seq<X>, p: X -> bool, q: X -> bool, either: X -> bool)
    requires forall x :: x in s ==> either(x) == (p(x) || q(x))
    ensures Reject(Reject(s, p), q) == Reject(s, either)
  {
    if s != [] {
      RejectTwice(s[1..], p, q, either);
    }
  }

  lemma {:induction false} DeleteKeysRejects<V, T>(s: seq<Entry<V, T>>, keys: seq<Key>)
    ensures DeleteKeys(s, keys) == Reject(s, KeyIn(keys))
    decreases keys
  {
    if keys == [] {
      RejectNothing(s, KeyIn(keys));
    } else {
      DeleteKeysRejects(Delete(s, keys[0]), keys[1..]);
      RejectTwice(s, HasKey(keys[0]), KeyIn(keys[1..]), KeyIn(keys));
    }
  }

  lemma {:induction false} KeysWhereMembers<V, T>(s: seq<Entry<V, T>>, p: Entry<V, T> -> bool)
    ensures forall k :: k in KeysWhere(s, p) <==> exists e :: e in s && p(e) && e.key == k
    ensures |KeysWhere(s, p)| == |s| - |Reject(s, p)|
  {
    if s != [] {
      KeysWhereMembers(s[1..], p);
      assert s == [s[0]] + s[1..];
    }
  }

  /** Collecting the doomed keys first and deleting them one by one removes exactly the
      doomed entries. */
  lemma CollectThenDelete<V, T>(s: seq<Entry<V, T>>, p: Entry<V, T> -> bool)
    requires Unique(s)
    ensures DeleteKeys(s, KeysWhere(s, p)) == Reject(s, p)
  {
    var keys := KeysWhere(s, p);
    KeysWhereMembers(s, p);
    DeleteKeysRejects(s, keys);
    RejectCongruent(s, KeyIn(keys), p);
  }

  // ---------------------------------------------------------------------------------------
  // The operations, with every clock reading an arbitrary input.

  datatype Op<!V, !T> =
    | Get(key: Key, now: real)
    | Put(key: Key, value: V, tag: T, now: real, ttl: real)
    | Purge(doomed: Entry<V, T> -> bool)

  datatype State<V, T> = State(entries: seq<Entry<V, T>>, hits: nat, misses: nat)

  function Empty<V, T>(): State<V, T> { State([], 0, 0) }

  function Expired<V, T>(now: real): Entry<V, T> -> bool {
    (e: Entry<V, T>) => now > e.expiresAt
  }

  function Everything<V, T>(): Entry<V, T> -> bool {
    (e: Entry<V, T>) => true
  }

  function Stored<V, T>(op: Op<V, T>): Entry<V, T>
    requires op.Put?
  {
    Entry(op.key, op.value, op.now + op.ttl, op.tag)
  }

  /** What a lookup at time `now` finds, if it is a hit. */
  function Hit<V, T>(s: seq<Entry<V, T>>, key: Key, now: real): Option<Entry<V, T>> {
    match Lookup(s, key)
    case None => None
    case Some(e) => if now > e.expiresAt then None else Some(e)
  }

  /** A lookup hits exactly when an entry with its key is not past its expiry. */
  lemma HitMeaning<V, T>(s: seq<Entry<V, T>>, key: Key, now: real, e: Entry<V, T>)
    requires Unique(s)
    ensures Hit(s, key, now) == Some(e) <==> e in s && e.key == key && now <= e.expiresAt
  {
    LookupFinds(s, key);
    if e in s && e.key == key {
      LookupUnique(s, e);
    }
  }

  function Evict<V, T>(s: seq<Entry<V, T>>, capacity: nat): seq<Entry<V, T>> {
    if |s| > capacity then s[|s| - capacity..] else s
  }

  function Step<V, T>(st: State<V, T>, op: Op<V, T>, capacity: nat): State<V, T> {
    match op
    case Get(key, now) =>
      (match Hit(st.entries, key, now)
       case Some(e) => State(Delete(st.entries, key) + [e], st.hits + 1, st.misses)
       case None => State(Delete(st.entries, key), st.hits, st.misses + 1))
    case Put(key, _, _, _, _) =>
      st.(entries := Evict(Delete(st.entries, key) + [Stored(op)], capacity))
    case Purge(doomed) =>
      st.(entries := Reject(st.entries, doomed))
  }

  /** The state after a whole history, from the empty cache. */
  function Run<V, T>(ops: seq<Op<V, T>>, capacity: nat): State<V, T> {
    if ops == [] then Empty()
    else Step(Run(ops[..|ops| - 1], capacity), ops[|ops| - 1], capacity)
  }

  lemma RunExtend<V, T>(ops: seq<Op<V, T>>, op: Op<V, T>, capacity: nat)
    ensures Run(ops + [op], capacity) == Step(Run(ops, capacity), op, capacity)
  {
    assert (ops + [op])[..|ops|] == ops;
  }

  lemma RunPurge<V, T>(ops: seq<Op<V, T>>, doomed: Entry<V, T> -> bool, capacity: nat, before: State<V, T>)
    requires Run(ops, capacity) == before
    ensures Unique(before.entries)
    ensures Run(ops + [Purge(doomed)], capacity) == before.(entries := Reject(before.entries, doomed))
  {
    RunSound(ops, capacity);
    RunExtend(ops, Purge(doomed), capacity);
  }

  ghost predicate Sound<V, T>(st: State<V, T>, capacity: nat) {
    Unique(st.entries) && |st.entries| <= capacity
  }

  lemma UniqueStore<V, T>(s: seq<Entry<V, T>>, e: Entry<V, T>)
    requires Unique(s)
    ensures Unique(Delete(s, e.key) + [e])
  {
    DeleteMembers(s, e.key);
  }

  lemma SoundStep<V, T>(st: State<V, T>, op: Op<V, T>, capacity: nat)
    requires Sound(st, capacity)
    ensures Sound(Step(st, op, capacity), capacity)
  {
    match op
    case Get(key, now) =>
      LookupFinds(st.entries, key);
      DeleteLength(st.entries, key);
      match Hit(st.entries, key, now) {
        case Some(e) => UniqueStore(st.entries, e);
        case None => UniqueReject(st.entries, HasKey(key));
      }
    case Put(key, _, _, _, _) => UniqueStore(st.entries, Stored(op));
    case Purge(doomed) =>
      UniqueReject(st.entries, doomed);
      RejectMembers(st.entries, doomed);
  }

  /** Every run leaves distinct keys and at most `capacity` entries. */
  lemma {:induction false} RunSound<V, T>(ops: seq<Op<V, T>>, capacity: nat)
    ensures Sound(Run(ops, capacity), capacity)
  {
    if ops != [] {
      RunSound(ops[..|ops| - 1], capacity);
      SoundStep(Run(ops[..|ops| - 1], capacity), ops[|ops| - 1], capacity);
    }
  }

  /** Clearing what is expired at `now` keeps exactly the entries not past their expiry, and no
      lookup from then on can tell. */
  lemma ClearingHarmless<V(!new), T(!new)>(s: seq<Entry<V, T>>, now: real, key: Key, later: real)
    requires Unique(s) && now <= later
    ensures var kept := Reject(s, Expired(now));
            && (forall e :: e in kept <==> e in s && now <= e.expiresAt)
            && Hit(kept, key, later) == Hit(s, key, later)
  {
    RejectMembers(s, Expired(now));
    LookupGone(s, Expired(now), key);
    LookupFinds(s, key);
  }

  // ---------------------------------------------------------------------------------------
  // The two loops the caches share.

  /** Drop entries from the front while over capacity. */
  method EvictOldest<V, T>(full: seq<Entry<V, T>>, capacity: nat) returns (kept: seq<Entry<V, T>>)
    ensures kept == Evict(full, capacity)
  {
    kept := full;
    while |kept| > capacity
      invariant |kept| <= |full| && kept == full[|full| - |kept|..]
      invariant |full| > capacity ==> |kept| >= capacity
      invariant |full| <= capacity ==> kept == full
    {
      kept := kept[1..];
    }
  }

  /** Refresh the key if it is there, assign it, and evict. */
  method Store<V, T>(s: seq<Entry<V, T>>, entry: Entry<V, T>, capacity: nat) returns (kept: seq<Entry<V, T>>)
    ensures kept == Evict(Delete(s, entry.key) + [entry], capacity)
  {
    MoveThenAssign(s, entry);
    kept := s;
    if Lookup(kept, entry.key).Some? {
      kept := MoveToEnd(kept, entry.key);
    }
    kept := Assign(kept, entry);
    kept := EvictOldest(kept, capacity);
  }

  /** List the keys to remove, then delete them one by one. */
  method RemoveWhere<V, T>(s: seq<Entry<V, T>>, doomed: Entry<V, T> -> bool)
    returns (kept: seq<Entry<V, T>>, count: nat)
    requires Unique(s)
    ensures kept == Reject(s, doomed) && count == |s| - |kept|
  {
    KeysWhereMembers(s, doomed);
    CollectThenDelete(s, doomed);
    var keys := KeysWhere(s, doomed);
    kept := s;
    for i := 0 to |keys|
      invariant DeleteKeys(kept, keys[i..]) == Reject(s, doomed)
    {
      kept := Delete(kept, keys[i]);
      assert keys[i..][1..] == keys[i + 1..];
    }
    count := |keys|;
  }

  // ---------------------------------------------------------------------------------------
  // Inclusion: a smaller cache never knows anything that a larger one has forgotten.

  ghost predicate Included<V(!new), T(!new)>(small: State<V, T>, large: State<V, T>, m: nat, n: nat) {
    && Sound(small, m) && Sound(large, n)
    && Subseq(small.entries, large.entries)
    && |large.entries| - |small.entries| <= n - m
    && small.hits <= large.hits
    && small.hits + small.misses == large.hits + large.misses
  }

  lemma SubseqLookup<V(!new), T(!new)>(a: seq<Entry<V, T>>, b: seq<Entry<V, T>>, key: Key)
    requires Subseq(a, b) && Unique(b)
    ensures Lookup(a, key).Some? ==> Lookup(a, key) == Lookup(b, key)
  {
    LookupFinds(a, key);
    SubseqMembers(a, b);
    if Lookup(a, key).Some? {
      LookupUnique(b, Lookup(a, key).value);
    }
  }

  lemma {:induction false} SubseqDelete<V(!new), T(!new)>(a: seq<Entry<V, T>>, b: seq<Entry<V, T>>, key: Key)
    requires Subseq(a, b) && Unique(a) && Unique(b)
    ensures Subseq(Delete(a, key), Delete(b, key))
    ensures |Delete(b, key)| - |Delete(a, key)| <= |b| - |a|
  {
    SubseqReject(a, b, HasKey(key));
    SubseqLookup(a, b, key);
    DeleteLength(a, key);
    DeleteLength(b, key);
  }

  lemma InclusionGet<V(!new), T(!new)>(small: State<V, T>, large: State<V, T>, op: Op<V, T>, m: nat, n: nat)
    requires m <= n && Included(small, large, m, n) && op.Get?
    ensures Included(Step(small, op, m), Step(large, op, n), m, n)
    ensures var hit := Hit(small.entries, op.key, op.now);
            hit.Some? ==> Hit(large.entries, op.key, op.now) == hit
  {
    SoundStep(small, op, m);
    SoundStep(large, op, n);
    var a, b := small.entries, large.entries;
    SubseqDelete(a, b, op.key);
    SubseqLookup(a, b, op.key);
    DeleteLength(a, op.key);
    DeleteLength(b, op.key);
    match Hit(b, op.key, op.now)
    case None =>
    case Some(e) =>
      if Hit(a, op.key, op.now).Some? {
        SubseqOf([e]);
        SubseqAppend(Delete(a, op.key), Delete(b, op.key), [e], [e]);
      } else {
        SubseqAppend(Delete(a, op.key), Delete(b, op.key), [], [e]);
        assert Delete(a, op.key) + [] == Delete(a, op.key);
      }
  }

  lemma InclusionPut<V(!new), T(!new)>(small: State<V, T>, large: State<V, T>, op: Op<V, T>, m: nat, n: nat)
    requires m <= n && Included(small, large, m, n) && op.Put?
    ensures Included(Step(small, op, m), Step(large, op, n), m, n)
  {
    SoundStep(small, op, m);
    SoundStep(large, op, n);
    var a, b := small.entries, large.entries;
    var e := Stored(op);
    SubseqDelete(a, b, op.key);
    SubseqLookup(a, b, op.key);
    DeleteLength(a, op.key);
    DeleteLength(b, op.key);
    SubseqOf([e]);
    SubseqAppend(Delete(a, op.key), Delete(b, op.key), [e], [e]);
    // The large cache is over capacity only when the small one is, and then both lose
    // their oldest entry.
    EvictIncluded(Delete(a, op.key) + [e], Delete(b, op.key) + [e], m, n);
  }

  lemma EvictIncluded<X(!new)>(a: seq<X>, b: seq<X>, m: nat, n: nat)
    requires Subseq(a, b) && a != [] && |a| <= m + 1 && |b| <= n + 1 && (|b| > n ==> |a| > m)
    ensures var a', b' := if |a| > m then a[|a| - m..] else a, if |b| > n then b[|b| - n..] else b;
            Subseq(a', b')
  {
    SubseqDropFirst(a, b);
    if |a| > m && |b| <= n {
      SubseqSkip(a[1..], [b[0]], b[1..]);
      assert b == [b[0]] + b[1..];
    }
  }

  lemma InclusionPurge<V(!new), T(!new)>(small: State<V, T>, large: State<V, T>, op: Op<V, T>, m: nat, n: nat)
    requires m <= n && Included(small, large, m, n) && op.Purge?
    ensures Included(Step(small, op, m), Step(large, op, n), m, n)
  {
    SoundStep(small, op, m);
    SoundStep(large, op, n);
    SubseqReject(small.entries, large.entries, op.doomed);
    PurgeShrinks(small.entries, large.entries, op.doomed);
  }

  /** A purge removes at least as many entries from the larger cache as from the smaller. */
  lemma {:induction false} PurgeShrinks<X(!new)>(a: seq<X>, b: seq<X>, p: X -> bool)
    requires Subseq(a, b)
    ensures |Reject(b, p)| - |Reject(a, p)| <= |b| - |a|
  {
    if a == [] {
      RejectMembers(b, p);
    } else if a[0] == b[0] && Subseq(a[1..], b[1..]) {
      PurgeShrinks(a[1..], b[1..], p);
    } else {
      PurgeShrinks(a, b[1..], p);
    }
  }

  /** Run the same operations, with the same clock readings, on capacities m <= n: the small
      cache's entries are an order-preserving subsequence of the large one's, it lags behind
      by at most n - m entries, and it has had no more hits. */
  lemma {:induction false} Inclusion<V(!new), T(!new)>(ops: seq<Op<V, T>>, m: nat, n: nat)
    requires m <= n
    ensures Included(Run(ops, m), Run(ops, n), m, n)
  {
    if ops != [] {
      var before, op := ops[..|ops| - 1], ops[|ops| - 1];
      Inclusion(before, m, n);
      match op
      case Get(_, _) => InclusionGet(Run(before, m), Run(before, n), op, m, n);
      case Put(_, _, _, _, _) => InclusionPut(Run(before, m), Run(before, n), op, m, n);
      case Purge(_) => InclusionPurge(Run(before, m), Run(before, n), op, m, n);
    }
  }

  /** Whatever the history, a hit at the smaller capacity is the same hit at the larger. */
  lemma HitAtLargerCapacity<V(!new), T(!new)>(ops: seq<Op<V, T>>, key: Key, now: real, m: nat, n: nat)
    requires m <= n
    requires Hit(Run(ops, m).entries, key, now).Some?
    ensures Hit(Run(ops, n).entries, key, now) == Hit(Run(ops, m).entries, key, now)
  {
    Inclusion(ops, m, n);
    SubseqLookup(Run(ops, m).entries, Run(ops, n).entries, key);
  }

  // ---------------------------------------------------------------------------------------
  // Retention.

  /** The entry that a cache of unbounded size would hold for `key`: the last one put,
      unless it was purged, or found expired by a lookup of `key`, since. */
  ghost function Live<V, T>(ops: seq<Op<V, T>>, key: Key): Option<Entry<V, T>> {
    if ops == [] then None
    else
      var before := Live(ops[..|ops| - 1], key);
      var op := ops[|ops| - 1];
      if op.Put? && op.key == key then Some(Stored(op))
      else if before.None? then None
      else if op.Get? && op.key == key && op.now > before.value.expiresAt then None
      else if op.Purge? && op.doomed(before.value) then None
      else before
  }

  /** The key an operation makes the most recently used one, if any. */
  ghost function Touched<V, T>(st: State<V, T>, op: Op<V, T>): Option<Key> {
    match op
    case Get(key, now) => if Hit(st.entries, key, now).Some? then Some(key) else None
    case Put(key, _, _, _, _) => Some(key)
    case Purge(_) => None
  }

  /** The distinct other keys put or hit since `key` itself was last put or hit. */
  ghost function Since<V, T>(ops: seq<Op<V, T>>, key: Key, capacity: nat): set<Key> {
    if ops == [] then {}
    else
      var before := ops[..|ops| - 1];
      match Touched(Run(before, capacity), ops[|ops| - 1])
      case None => Since(before, key, capacity)
      case Some(k) => if k == key then {} else Since(before, key, capacity) + {k}
  }

  ghost function Keys<V, T>(s: seq<Entry<V, T>>): set<Key> {
    set e | e in s :: e.key
  }

  /** The keys more recently used than `key`. */
  ghost function After<V, T>(s: seq<Entry<V, T>>, key: Key): set<Key> {
    if s == [] then {}
    else if s[0].key == key then Keys(s[1..])
    else After(s[1..], key)
  }

  lemma {:induction false} KeysCount<V, T>(s: seq<Entry<V, T>>)
    requires Unique(s)
    ensures |Keys(s)| == |s|
  {
    if s == [] {
      assert Keys(s) == {};
    } else {
      KeysCount(s[1..]);
      assert s == [s[0]] + s[1..];
      assert Keys(s) == {s[0].key} + Keys(s[1..]);
    }
  }

  lemma {:induction false} AfterStore<V, T>(s: seq<Entry<V, T>>, e: Entry<V, T>, key: Key)
    requires key != e.key && Lookup(s, key).Some?
    ensures Lookup(s + [e], key) == Lookup(s, key)
    ensures After(s + [e], key) == After(s, key) + {e.key}
  {
    assert (s + [e])[1..] == s[1..] + [e];
    if s[0].key == key {
      assert Keys(s[1..] + [e]) == Keys(s[1..]) + {e.key};
    } else {
      AfterStore(s[1..], e, key);
    }
  }

  lemma {:induction false} AfterReject<V, T>(s: seq<Entry<V, T>>, p: Entry<V, T> -> bool, key: Key)
    requires Lookup(s, key).Some? && !p(Lookup(s, key).value)
    ensures Lookup(Reject(s, p), key) == Lookup(s, key)
    ensures After(Reject(s, p), key) <= After(s, key)
    ensures forall k :: k in After(s, key) && (forall e :: e in s && e.key == k ==> !p(e)) ==> k in After(Reject(s, p), key)
  {
    assert s == [s[0]] + s[1..];
    RejectMembers(s[1..], p);
    if s[0].key != key {
      AfterReject(s[1..], p, key);
    }
  }

  lemma {:induction false} LookupGone<V, T>(s: seq<Entry<V, T>>, p: Entry<V, T> -> bool, key: Key)
    requires Unique(s)
    ensures Lookup(Reject(s, p), key) == match Lookup(s, key)
                                         case None => None
                                         case Some(e) => if p(e) then None else Some(e)
  {
    LookupFinds(s, key);
    LookupFinds(Reject(s, p), key);
    RejectMembers(s, p);
  }

  lemma LookupLast<V, T>(s: seq<Entry<V, T>>, e: Entry<V, T>)
    requires Unique(s)
    ensures Lookup(Delete(s, e.key) + [e], e.key) == Some(e)
    ensures After(Delete(s, e.key) + [e], e.key) == {}
  {
    UniqueStore(s, e);
    LookupUnique(Delete(s, e.key) + [e], e);
    DeleteMembers(s, e.key);
    AfterLast(Delete(s, e.key), e);
  }

  lemma {:induction false} AfterLast<V, T>(s: seq<Entry<V, T>>, e: Entry<V, T>)
    requires forall x :: x in s ==> x.key != e.key
    ensures After(s + [e], e.key) == {}
  {
    if s == [] {
      assert Keys(([e])[1..]) == {};
    } else {
      AfterLast(s[1..], e);
      assert (s + [e])[1..] == s[1..] + [e];
    }
  }

  /** Eviction spares a key that has fewer than `capacity` more recent ones, and keeps all of
      those. */
  lemma EvictSpares<V, T>(s: seq<Entry<V, T>>, capacity: nat, key: Key)
    requires Unique(s) && |s| <= capacity + 1 && Lookup(s, key).Some?
    ensures var t := Evict(s, capacity);
            if |After(s, key)| < capacity
            then Lookup(t, key) == Lookup(s, key) && After(t, key) == After(s, key)
            else Lookup(t, key).None?
  {
    AfterCount(s, key);
    if |s| > capacity {
      assert Evict(s, capacity) == s[1..];
      if s[0].key == key {
        KeysCount(s[1..]);
        LookupFinds(s[1..], key);
      }
    } else {
      assert |After(s, key)| < |s|;
    }
  }

  lemma {:induction false} AfterCount<V, T>(s: seq<Entry<V, T>>, key: Key)
    requires Unique(s) && Lookup(s, key).Some?
    ensures |After(s, key)| < |s|
    ensures s[0].key != key ==> |After(s, key)| < |s| - 1
  {
    if s[0].key == key {
      KeysCount(s[1..]);
    } else {
      AfterCount(s[1..], key);
    }
  }

  /** A bounded cache never holds anything but the live entry, and the keys it ranks as more
      recent were all put or hit since. */
  lemma {:induction false} PresentIsLive<V, T>(ops: seq<Op<V, T>>, key: Key, capacity: nat)
    ensures var s := Run(ops, capacity).entries;
            Lookup(s, key).Some? ==> Lookup(s, key) == Live(ops, key) && After(s, key) <= Since(ops, key, capacity)
  {
    if ops != [] {
      var before, op := ops[..|ops| - 1], ops[|ops| - 1];
      PresentIsLive(before, key, capacity);
      RunSound(before, capacity);
      StepRecency(Run(before, capacity), op, key, capacity);
    }
  }

  /** How one operation moves a key: it stays with only newly touched keys added after it, it
      is refreshed, it is removed, or it is evicted by `capacity` more recent keys. */
  lemma StepRecency<V, T>(st: State<V, T>, op: Op<V, T>, key: Key, capacity: nat)
    requires Sound(st, capacity)
    ensures var s, t := st.entries, Step(st, op, capacity).entries;
            match Touched(st, op)
            case Some(k) =>
              if k == key then
                && var e := if op.Put? then Some(Stored(op)) else Hit(s, key, op.now);
                && Lookup(t, key) == (if capacity > 0 then e else None)
                && After(t, key) == {}
              else if Lookup(s, key).None? then Lookup(t, key).None?
              else if |After(s, key) + {k}| < capacity
              then Lookup(t, key) == Lookup(s, key) && After(t, key) == After(s, key) + {k}
              else Lookup(t, key).None?
            case None =>
              if Lookup(s, key).None? then Lookup(t, key).None?
              else if op.Get? && op.key == key then op.now > Lookup(s, key).value.expiresAt && Lookup(t, key).None?
              else if op.Purge? && op.doomed(Lookup(s, key).value) then Lookup(t, key).None?
              else Lookup(t, key) == Lookup(s, key) && After(t, key) <= After(s, key)
  {
    var s := st.entries;
    LookupFinds(s, key);
    match op
    case Get(k, now) =>
      LookupFinds(s, k);
      var hit := Hit(s, k, now);
      if hit.Some? {
        Refreshed(s, hit.value, key, capacity);
      } else {
        LookupGone(s, HasKey(k), key);
        if k != key && Lookup(s, key).Some? {
          AfterReject(s, HasKey(k), key);
        }
      }
    case Put(_, _, _, _, _) =>
      Refreshed(s, Stored(op), key, capacity);
    case Purge(doomed) =>
      LookupGone(s, doomed, key);
      if Lookup(s, key).Some? && !doomed(Lookup(s, key).value) {
        AfterReject(s, doomed, key);
      }
  }

  lemma Refreshed<V, T>(s: seq<Entry<V, T>>, e: Entry<V, T>, key: Key, capacity: nat)
    requires Unique(s) && |s| <= capacity
    ensures var t := Evict(Delete(s, e.key) + [e], capacity);
            if e.key == key then
              Lookup(t, key) == (if capacity > 0 then Some(e) else None) && After(t, key) == {}
            else if Lookup(s, key).None? then Lookup(t, key).None?
            else if |After(s, key) + {e.key}| < capacity
            then Lookup(t, key) == Lookup(s, key) && After(t, key) == After(s, key) + {e.key}
            else Lookup(t, key).None?
    ensures Lookup(s, e.key).Some? ==> |Delete(s, e.key) + [e]| <= capacity
  {
    var moved := Delete(s, e.key) + [e];
    LookupFinds(s, key);
    UniqueStore(s, e);
    DeleteLength(s, e.key);
    if e.key == key {
      LookupLast(s, e);
      EvictSpares(moved, capacity, key);
    } else if Lookup(s, key).Some? {
      AfterReject(s, HasKey(e.key), key);
      AfterStore(Delete(s, e.key), e, key);
      DeleteMembers(s, e.key);
      assert After(moved, key) == After(s, key) + {e.key};
      EvictSpares(moved, capacity, key);
    } else {
      DeleteMembers(s, e.key);
      LookupFinds(Evict(moved, capacity), key);
    }
  }

  /** Exact retention: a key that is live stays in a cache of the given capacity, with its
      last stored entry, as long as fewer than `capacity` distinct other keys were put or hit
      since it was itself last put or hit. */
  lemma {:induction false} Retained<V, T>(ops: seq<Op<V, T>>, key: Key, capacity: nat)
    requires Live(ops, key).Some? && |Since(ops, key, capacity)| < capacity
    ensures Lookup(Run(ops, capacity).entries, key) == Live(ops, key)
  {
    var before, op := ops[..|ops| - 1], ops[|ops| - 1];
    var st := Run(before, capacity);
    RunSound(before, capacity);
    PresentIsLive(before, key, capacity);
    StepRecency(st, op, key, capacity);
    if op.Put? && op.key == key {
    } else {
      if Touched(st, op) != Some(key) {
        SinceGrows(before, op, key, capacity);
        assert before + [op] == ops;
        Retained(before, key, capacity);
        SubsetSize(After(st.entries, key), Since(before, key, capacity));
        match Touched(st, op) {
          case Some(k) => SubsetSize(After(st.entries, key) + {k}, Since(ops, key, capacity));
          case None =>
        }
      }
    }
  }

  lemma {:induction false} SinceGrows<V, T>(ops: seq<Op<V, T>>, op: Op<V, T>, key: Key, capacity: nat)
    requires Touched(Run(ops, capacity), op) != Some(key)
    ensures Since(ops, key, capacity) <= Since(ops + [op], key, capacity)
    ensures |Since(ops, key, capacity)| <= |Since(ops + [op], key, capacity)|
  {
    assert (ops + [op])[..|ops|] == ops;
    SubsetSize(Since(ops, key, capacity), Since(ops + [op], key, capacity));
  }

  /** Nothing is ever taken out of the cache except to make room. */
  ghost predicate OnlyEvicts<V, T>(ops: seq<Op<V, T>>, capacity: nat) {
    ops == [] ||
    (var before, op := ops[..|ops| - 1], ops[|ops| - 1];
     && OnlyEvicts(before, capacity)
     && !op.Purge?
     && (op.Get? ==> Lookup(Run(before, capacity).entries, op.key).Some? ==>
           Hit(Run(before, capacity).entries, op.key, op.now).Some?))
  }

  /** When entries leave only by eviction the bound is exact: a live key is present if and
      only if fewer than `capacity` distinct other keys were put or hit since its own last
      put or hit. */
  lemma RetainedExactly<V, T>(ops: seq<Op<V, T>>, key: Key, capacity: nat)
    requires OnlyEvicts(ops, capacity) && Live(ops, key).Some?
    ensures Lookup(Run(ops, capacity).entries, key).Some? <==> |Since(ops, key, capacity)| < capacity
  {
    if |Since(ops, key, capacity)| < capacity {
      Retained(ops, key, capacity);
    }
    if Lookup(Run(ops, capacity).entries, key).Some? {
      AfterIsSince(ops, key, capacity);
      RunSound(ops, capacity);
      AfterCount(Run(ops, capacity).entries, key);
    }
  }

  lemma {:induction false} AfterIsSince<V, T>(ops: seq<Op<V, T>>, key: Key, capacity: nat)
    requires OnlyEvicts(ops, capacity)
    requires Lookup(Run(ops, capacity).entries, key).Some?
    ensures After(Run(ops, capacity).entries, key) == Since(ops, key, capacity)
  {
    var before, op := ops[..|ops| - 1], ops[|ops| - 1];
    var st := Run(before, capacity);
    RunSound(before, capacity);
    StepRecency(st, op, key, capacity);
    if Touched(st, op) != Some(key) {
      AfterIsSince(before, key, capacity);
      if Touched(st, op).None? {
        LookupFinds(st.entries, op.key);
        RejectNothing(st.entries, HasKey(op.key));
      }
    }
  }

  /** A hit returns the value of the last put of its key, made at most that put's
      time-to-live before the lookup, with no purge of the entry in between. */
  lemma {:induction false} HitIsFresh<V, T>(ops: seq<Op<V, T>>, key: Key, now: real, capacity: nat) returns (i: nat)
    requires Hit(Run(ops, capacity).entries, key, now).Some?
    ensures i < |ops| && ops[i].Put? && ops[i].key == key
    ensures Hit(Run(ops, capacity).entries, key, now).value == Stored(ops[i])
    ensures now <= ops[i].now + ops[i].ttl
    ensures forall j :: i < j < |ops| ==> !(ops[j].Put? && ops[j].key == key)
    ensures forall j :: i < j < |ops| && ops[j].Purge? ==> !ops[j].doomed(Stored(ops[i]))
  {
    PresentIsLive(ops, key, capacity);
    i := LastPut(ops, key);
  }

  lemma {:induction false} LastPut<V, T>(ops: seq<Op<V, T>>, key: Key) returns (i: nat)
    requires Live(ops, key).Some?
    ensures i < |ops| && ops[i].Put? && ops[i].key == key && Live(ops, key).value == Stored(ops[i])
    ensures forall j :: i < j < |ops| ==> !(ops[j].Put? && ops[j].key == key)
    ensures forall j :: i < j < |ops| && ops[j].Purge? ==> !ops[j].doomed(Stored(ops[i]))
  {
    var n := |ops| - 1;
    if ops[n].Put? && ops[n].key == key {
      i := n;
    } else {
      i := LastPut(ops[..n], key);
    }
  }

  /** A purge is final: until an entry of the purged kind is put again, no run of any other
      operations brings one back. */
  lemma {:induction false} PurgedStaysAway<V, T>(ops: seq<Op<V, T>>, i: nat, capacity: nat)
    requires i < |ops| && ops[i].Purge?
    requires forall j :: i < j < |ops| && ops[j].Put? ==> !ops[i].doomed(Stored(ops[j]))
    ensures forall e :: e in Run(ops, capacity).entries ==> !ops[i].doomed(e)
  {
    var n := |ops| - 1;
    if i < n {
      PurgedStaysAway(ops[..n], i, capacity);
    }
    StepOrigins(Run(ops[..n], capacity), ops[n], capacity);
  }

  /** Every entry after an operation was there before it, unpurged, or is the one it stored. */
  lemma StepOrigins<V, T>(st: State<V, T>, op: Op<V, T>, capacity: nat)
    ensures forall e :: e in Step(st, op, capacity).entries ==>
              (op.Put? && e == Stored(op)) || (e in st.entries && (op.Purge? ==> !op.doomed(e)))
  {
    match op
    case Get(key, now) =>
      LookupFinds(st.entries, key);
      DeleteMembers(st.entries, key);
    case Put(key, _, _, _, _) =>
      DeleteMembers(st.entries, key);
    case Purge(doomed) =>
      RejectMembers(st.entries, doomed);
  }
}
