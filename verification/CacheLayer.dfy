/** src/cache_layer.py: the in-process recall cache. The feature flag is read afresh by every
    call, so it is an argument of the methods it gates. */
module CacheLayer {
  import opened Sequences
  import opened Lru

  type Ids = seq<int>

  /** Entries whose result refers to the record `id`. */
  function Mentions<V>(id: int): Entry<V, Ids> -> bool {
    (e: Entry<V, Ids>) => id in e.tag
  }

  function Lifetime(default: real, given: Option<real>): real {
    match given
    case None => default
    case Some(t) => if t < 0.0 then 0.0 else t
  }

  /** The default unless another one is given, and never negative when given. */
  lemma LifetimeMeaning(default: real, given: Option<real>)
    ensures given.None? ==> Lifetime(default, given) == default
    ensures given.Some? && given.value >= 0.0 ==> Lifetime(default, given) == given.value
    ensures given.Some? && given.value < 0.0 ==> Lifetime(default, given) == 0.0
  {
  }

  class L1QueryCache<V(!new)> {
    const maxsize: nat
    const ttl: real
    var cache: seq<Entry<V, Ids>>
    var hits: nat
    var misses: nat
    ghost var history: seq<Op<V, Ids>>

    /** The object is in the state its effective operations lead to. */
    ghost predicate Valid()
      reads this
    {
      State(cache, hits, misses) == Run(history, maxsize)
    }

    constructor (maxsize: nat, ttl: real)
      ensures Valid() && history == [] && cache == [] && hits == misses == 0
      ensures this.maxsize == maxsize && this.ttl == ttl
    {
      this.maxsize, this.ttl := maxsize, ttl;
      cache, hits, misses, history := [], 0, 0, [];
    }

    method Get(key: Key, enabled: bool, now: real) returns (result: Option<V>)
      requires Valid()
      modifies this
      ensures Valid()
      ensures !enabled ==> result == None && unchanged(this)
      ensures enabled ==>
                && history == old(history) + [Op.Get(key, now)]
                && result == (match Hit(old(cache), key, now) case None => None case Some(e) => Some(e.value))
                && hits - old(hits) == (if result.Some? then 1 else 0)
                && misses - old(misses) == (if result.Some? then 0 else 1)
    {
      if !enabled {
        return None;
      }
      RunExtend(history, Op.Get(key, now), maxsize);
      history := history + [Op.Get(key, now)];
      LookupFinds(cache, key);
      var entry := Lookup(cache, key);
      if entry.None? {
        RejectNothing(cache, HasKey(key));
        misses := misses + 1;
        return None;
      }
      if now > entry.value.expiresAt {
        cache := Delete(cache, key);
        misses := misses + 1;
        return None;
      }
      cache := MoveToEnd(cache, key);
      hits := hits + 1;
      return Some(entry.value.value);
    }

    method Set(key: Key, value: V, memoryIds: Ids, ttlSec: Option<real>, enabled: bool, now: real)
      requires Valid()
      modifies this
      ensures Valid() && hits == old(hits) && misses == old(misses)
      ensures !enabled ==> unchanged(this)
      ensures enabled ==>
                var lifetime := Lifetime(ttl, ttlSec);
                && history == old(history) + [Op.Put(key, value, memoryIds, now, lifetime)]
                && cache == Evict(Delete(old(cache), key) + [Entry(key, value, now + lifetime, memoryIds)], maxsize)
    {
      if !enabled {
        return;
      }
      var lifetime := Lifetime(ttl, ttlSec);
      var entry := Entry(key, value, now + lifetime, memoryIds);
      ghost var op := Op.Put(key, value, memoryIds, now, lifetime);
      assert Stored(op) == entry;
      RunExtend(history, op, maxsize);
      cache := Store(cache, entry, maxsize);
      history := history + [op];
    }

    /** Not gated by the flag. */
    method InvalidateAll() returns (count: nat)
      requires Valid()
      modifies this
      ensures Valid() && cache == [] && count == |old(cache)|
      ensures hits == old(hits) && misses == old(misses)
      ensures history == old(history) + [Purge(Everything())]
    {
      RunPurge(history, Everything(), maxsize, State(cache, hits, misses));
      RejectAll(cache, Everything());
      count := |cache|;
      cache := [];
      history := history + [Purge(Everything())];
    }

    /** Not gated by the flag. */
    method InvalidateById(id: int) returns (count: nat)
      requires Valid()
      modifies this
      ensures Valid() && cache == Reject(old(cache), Mentions(id)) && count == |old(cache)| - |cache|
      ensures forall e :: e in cache <==> e in old(cache) && id !in e.tag
      ensures hits == old(hits) && misses == old(misses)
      ensures history == old(history) + [Purge(Mentions(id))]
    {
      RunPurge(history, Mentions(id), maxsize, State(cache, hits, misses));
      RejectMembers(cache, Mentions(id));
      cache, count := RemoveWhere(cache, Mentions(id));
      history := history + [Purge(Mentions(id))];
    }
  }

  /** Whatever the threads interleave, after a record is invalidated by id no lookup returns a
      result that mentions it until such a result is set again. */
  lemma NoHitMentions<V>(ops: seq<Op<V, Ids>>, i: nat, id: int, key: Key, now: real, capacity: nat)
    requires i < |ops| && ops[i] == Purge(Mentions(id))
    requires forall j :: i < j < |ops| && ops[j].Put? ==> id !in ops[j].tag
    requires Hit(Run(ops, capacity).entries, key, now).Some?
    ensures id !in Hit(Run(ops, capacity).entries, key, now).value.tag
  {
    PurgedStaysAway(ops, i, capacity);
    LookupFinds(Run(ops, capacity).entries, key);
  }

  // ---------------------------------------------------------------------------------------
  // Sequential recall through the cache, against recomputing on the current store.

  /** `compute` is the uncached search; `keyOf` is the cache key of a query, which need not be
      injective. */
  datatype Config<!S, !Q, !V> = Config(compute: (S, Q) -> V, keyOf: Q -> Key, capacity: nat, ttl: real)

  datatype Action<S, Q> =
    | Recall(query: Q, ids: Ids, enabledGet: bool, getAt: real, enabledSet: bool, setAt: real)
    | Write(store: S)
    | Forget(id: int)

  datatype System<S, V> = System(store: S, cache: State<V, Ids>)

  /** The cached answer, when the lookup of a recall finds one. */
  function Cached<S, Q, V>(c: Config<S, Q, V>, sys: System<S, V>, a: Action<S, Q>): Option<Entry<V, Ids>>
    requires a.Recall?
  {
    if a.enabledGet then Hit(sys.cache.entries, c.keyOf(a.query), a.getAt) else None
  }

  function Answer<S, Q, V>(c: Config<S, Q, V>, sys: System<S, V>, a: Action<S, Q>): V
    requires a.Recall?
  {
    match Cached(c, sys, a)
    case Some(e) => e.value
    case None => c.compute(sys.store, a.query)
  }

  /** A recall looks its key up and on a miss computes and stores; a write replaces the store
      and wipes the cache; a record can also be forgotten by id. */
  function Act<S, Q, V>(c: Config<S, Q, V>, sys: System<S, V>, a: Action<S, Q>): System<S, V> {
    match a
    case Recall(query, ids, enabledGet, getAt, enabledSet, setAt) =>
      var key := c.keyOf(query);
      var looked := if enabledGet then Step(sys.cache, Op.Get(key, getAt), c.capacity) else sys.cache;
      if Cached(c, sys, a).Some? || !enabledSet then sys.(cache := looked)
      else sys.(cache := Step(looked, Op.Put(key, c.compute(sys.store, query), ids, setAt, c.ttl), c.capacity))
    case Write(store) => System(store, Step(sys.cache, Purge(Everything()), c.capacity))
    case Forget(id) => sys.(cache := Step(sys.cache, Purge(Mentions(id)), c.capacity))
  }

  function Acts<S, Q, V>(c: Config<S, Q, V>, start: S, acts: seq<Action<S, Q>>): System<S, V> {
    if acts == [] then System(start, Empty())
    else Act(c, Acts(c, start, acts[..|acts| - 1]), acts[|acts| - 1])
  }

  /** The facade over the recall cache; the embedding tier is not part of it. */
  class TwoLevelCache<Q, V(!new)> {
    const l1: L1QueryCache<V>
    const keyOf: Q -> Key

    constructor (l1: L1QueryCache<V>, keyOf: Q -> Key)
      ensures this.l1 == l1 && this.keyOf == keyOf
    {
      this.l1, this.keyOf := l1, keyOf;
    }

    /** Look the query up; on a miss compute on the store and set the result. */
    method Recall<S>(c: Config<S, Q, V>, store: S, a: Action<S, Q>) returns (answer: V)
      requires a.Recall? && l1.Valid() && c.keyOf == keyOf && c.capacity == l1.maxsize && c.ttl == l1.ttl
      modifies l1
      ensures l1.Valid()
      ensures answer == Answer(c, System(store, old(State(l1.cache, l1.hits, l1.misses))), a)
      ensures System(store, State(l1.cache, l1.hits, l1.misses)) ==
              Act(c, System(store, old(State(l1.cache, l1.hits, l1.misses))), a)
    {
      var key := keyOf(a.query);
      RunExtend(l1.history, Op.Get(key, a.getAt), l1.maxsize);
      var found := l1.Get(key, a.enabledGet, a.getAt);
      if found.Some? {
        return found.value;
      }
      answer := c.compute(store, a.query);
      RunExtend(l1.history, Op.Put(key, answer, a.ids, a.setAt, l1.ttl), l1.maxsize);
      l1.Set(key, answer, a.ids, None, a.enabledSet, a.setAt);
    }

    /** What every change of the store is followed by. */
    method StoreChanged<S>(c: Config<S, Q, V>, ghost before: S, after: S)
      requires l1.Valid() && c.capacity == l1.maxsize
      modifies l1
      ensures l1.Valid()
      ensures System(after, State(l1.cache, l1.hits, l1.misses)) ==
              Act(c, System(before, old(State(l1.cache, l1.hits, l1.misses))), Action<S, Q>.Write(after))
    {
      RunExtend(l1.history, Purge(Everything()), l1.maxsize);
      var _ := l1.InvalidateAll();
    }
  }

  /** Every recall of the run answers what recomputing on the store of that moment would. */
  ghost predicate Transparent<S, Q, V>(c: Config<S, Q, V>, start: S, acts: seq<Action<S, Q>>) {
    forall i :: 0 <= i < |acts| && acts[i].Recall? ==>
      var sys := Acts(c, start, acts[..i]);
      Answer(c, sys, acts[i]) == c.compute(sys.store, acts[i].query)
  }

  /** Queries that share a key always have the same result. */
  ghost predicate KeysSeparate<S(!new), Q(!new), V>(c: Config<S, Q, V>) {
    forall s: S, q: Q, r: Q {:trigger c.compute(s, q), c.keyOf(r)} :: c.keyOf(q) == c.keyOf(r) ==> c.compute(s, q) == c.compute(s, r)
  }

  ghost predicate Current<S, Q(!new), V(!new)>(c: Config<S, Q, V>, store: S, entries: seq<Entry<V, Ids>>) {
    forall e, q :: e in entries && c.keyOf(q) == e.key ==> e.value == c.compute(store, q)
  }

  lemma {:induction false} CacheIsCurrent<S(!new), Q(!new), V(!new)>(c: Config<S, Q, V>, start: S, acts: seq<Action<S, Q>>)
    requires KeysSeparate(c)
    ensures Current(c, Acts(c, start, acts).store, Acts(c, start, acts).cache.entries)
  {
    if acts != [] {
      var before, a := acts[..|acts| - 1], acts[|acts| - 1];
      CacheIsCurrent(c, start, before);
      var sys := Acts(c, start, before);
      match a
      case Recall(query, ids, enabledGet, getAt, enabledSet, setAt) =>
        var key := c.keyOf(query);
        var get := Op<V, Ids>.Get(key, getAt);
        var looked := if enabledGet then Step(sys.cache, get, c.capacity) else sys.cache;
        StepOrigins(sys.cache, get, c.capacity);
        StepOrigins(looked, Op.Put(key, c.compute(sys.store, query), ids, setAt, c.ttl), c.capacity);
      case Write(store) =>
        RejectAll(sys.cache.entries, Everything());
      case Forget(id) =>
        StepOrigins(sys.cache, Purge(Mentions(id)), c.capacity);
    }
  }

  /** Wiping on every write makes the cache invisible, however the flag is toggled, whenever
      queries sharing a key have the same result. */
  lemma CoherentIfSeparate<S(!new), Q(!new), V(!new)>(c: Config<S, Q, V>, start: S, acts: seq<Action<S, Q>>)
    requires KeysSeparate(c)
    ensures Transparent(c, start, acts)
  {
    forall i | 0 <= i < |acts| && acts[i].Recall?
      ensures var sys := Acts(c, start, acts[..i]);
              Answer(c, sys, acts[i]) == c.compute(sys.store, acts[i].query)
    {
      CacheIsCurrent(c, start, acts[..i]);
      LookupFinds(Acts(c, start, acts[..i]).cache.entries, c.keyOf(acts[i].query));
    }
  }

  /** Two queries that share a key but not a result are confused by a three-step run. */
  lemma CollisionIsVisible<S(!new), Q(!new), V(!new)>(c: Config<S, Q, V>, start: S, store: S, q: Q, r: Q)
    returns (acts: seq<Action<S, Q>>)
    requires c.capacity > 0
    requires c.keyOf(q) == c.keyOf(r) && c.compute(store, q) != c.compute(store, r)
    ensures !Transparent(c, start, acts)
  {
    var first := Recall(q, [], true, 0.0, true, 0.0);
    var second := Recall(r, [], true, c.ttl, true, 0.0);
    acts := [Write(store), first, second];
    var s0 := Acts(c, start, []);
    assert acts[..1] == [Write(store)] && acts[..1][..0] == [];
    var s1 := Acts(c, start, acts[..1]);
    assert s1 == Act(c, s0, Write(store)) && s1.cache.entries == [];
    assert acts[..2] == [Write(store), first] && acts[..2][..1] == acts[..1];
    var s2 := Acts(c, start, acts[..2]);
    assert s2 == Act(c, s1, first);
    var e := Entry(c.keyOf(q), c.compute(store, q), c.ttl, []);
    assert s2.cache.entries == [e];
    assert Answer(c, s2, second) == e.value;
    assert acts[2] == second;
  }

  lemma {:induction false} NothingStored<S(!new), Q(!new), V(!new)>(c: Config<S, Q, V>, start: S, acts: seq<Action<S, Q>>)
    requires c.capacity == 0
    ensures Acts(c, start, acts).cache.entries == []
  {
    if acts != [] {
      NothingStored(c, start, acts[..|acts| - 1]);
    }
  }

  /** Exactly when the cache is invisible over all runs, at all clock readings: the keys must
      separate queries by result, or nothing is ever stored. */
  lemma CoherentExactlyWhenSeparate<S(!new), Q(!new), V(!new)>(c: Config<S, Q, V>, start: S)
    ensures (forall acts :: Transparent(c, start, acts)) <==> KeysSeparate(c) || c.capacity == 0
  {
    if KeysSeparate(c) {
      forall acts ensures Transparent(c, start, acts) {
        CoherentIfSeparate(c, start, acts);
      }
    } else if c.capacity == 0 {
      forall acts: seq<Action<S, Q>>, i | 0 <= i < |acts| ensures Acts(c, start, acts[..i]).cache.entries == [] {
        NothingStored(c, start, acts[..i]);
      }
    } else {
      var s: S, q: Q, r: Q :| c.keyOf(q) == c.keyOf(r) && c.compute(s, q) != c.compute(s, r);
      var acts := CollisionIsVisible(c, start, s, q, r);
    }
  }

  /** With the flag off a recall computes and leaves the cache alone. */
  lemma DisabledComputes<S, Q, V>(c: Config<S, Q, V>, sys: System<S, V>, a: Action<S, Q>)
    requires a.Recall? && !a.enabledGet && !a.enabledSet
    ensures Answer(c, sys, a) == c.compute(sys.store, a.query) && Act(c, sys, a) == sys
  {
  }

  /** With the flag on, a repeated recall within the time-to-live is answered from the cache. */
  lemma RepeatHits<S, Q, V>(c: Config<S, Q, V>, sys: System<S, V>, a: Action<S, Q>, b: Action<S, Q>)
    requires Sound(sys.cache, c.capacity) && c.capacity > 0
    requires a.Recall? && b.Recall? && b.query == a.query && b.enabledGet
    requires a.enabledGet && a.enabledSet && Cached(c, sys, a).None? && b.getAt <= a.setAt + c.ttl
    ensures var hit := Cached(c, Act(c, sys, a), b);
            hit.Some? && hit.value.value == c.compute(sys.store, a.query) && hit.value.tag == a.ids
  {
    var key := c.keyOf(a.query);
    var get, put := Op<V, Ids>.Get(key, a.getAt), Op.Put(key, c.compute(sys.store, a.query), a.ids, a.setAt, c.ttl);
    SoundStep(sys.cache, get, c.capacity);
    Refreshed(Step(sys.cache, get, c.capacity).entries, Stored(put), key, c.capacity);
  }

  /** A forgotten record is in no cached result, and nothing else is gone. */
  lemma ForgottenGone<S, Q, V>(c: Config<S, Q, V>, sys: System<S, V>, id: int)
    ensures var after := Act(c, sys, Action<S, Q>.Forget(id));
            && after.store == sys.store
            && (forall e :: e in after.cache.entries ==> e in sys.cache.entries && id !in e.tag)
            && (forall e :: e in sys.cache.entries && id !in e.tag ==> e in after.cache.entries)
  {
    RejectMembers(sys.cache.entries, Mentions(id));
  }

  // ---------------------------------------------------------------------------------------
  // Recalls in flight: other threads may write between a computation and its set.

  type Thread = nat

  datatype Result<Q, V> = Result(query: Q, value: V)

  datatype Flight<S, Q, V> = Flight(store: S, cache: State<V, Ids>, computed: map<Thread, Result<Q, V>>)

  datatype Move<S, Q> =
    | Find(query: Q, at: real)
    | Compute(thread: Thread, query: Q)
    | Keep(thread: Thread, ids: Ids, at: real)
    | Change(store: S)

  function Moved<S, Q, V>(c: Config<S, Q, V>, f: Flight<S, Q, V>, move: Move<S, Q>): Flight<S, Q, V> {
    match move
    case Find(query, at) => f.(cache := Step(f.cache, Op.Get(c.keyOf(query), at), c.capacity))
    case Compute(thread, query) =>
      f.(computed := f.computed[thread := Result(query, c.compute(f.store, query))])
    case Keep(thread, ids, at) =>
      if thread !in f.computed then f
      else
        var kept := f.computed[thread];
        f.(cache := Step(f.cache, Op.Put(c.keyOf(kept.query), kept.value, ids, at, c.ttl), c.capacity),
           computed := f.computed - {thread})
    case Change(store) => f.(store := store, cache := Step(f.cache, Purge(Everything()), c.capacity))
  }

  function Moves<S, Q, V>(c: Config<S, Q, V>, start: S, moves: seq<Move<S, Q>>): Flight<S, Q, V> {
    if moves == [] then Flight(start, Empty(), map[])
    else Moved(c, Moves(c, start, moves[..|moves| - 1]), moves[|moves| - 1])
  }

  /** Every lookup that hits, of any query at any time, returns what recomputing would. */
  ghost predicate HitsExact<S, Q(!new), V>(c: Config<S, Q, V>, f: Flight<S, Q, V>) {
    forall q, at :: var hit := Hit(f.cache.entries, c.keyOf(q), at);
      hit.Some? ==> hit.value.value == c.compute(f.store, q)
  }

  ghost predicate AlwaysExact<S, Q(!new), V>(c: Config<S, Q, V>, start: S, moves: seq<Move<S, Q>>) {
    HitsExact(c, Moves(c, start, moves)) && (moves == [] || AlwaysExact(c, start, moves[..|moves| - 1]))
  }

  /** A set keeps a result that is still the result. */
  ghost predicate KeepsFresh<S, Q, V>(c: Config<S, Q, V>, f: Flight<S, Q, V>, move: Move<S, Q>) {
    move.Keep? && move.thread in f.computed ==>
      f.computed[move.thread].value == c.compute(f.store, f.computed[move.thread].query)
  }

  ghost predicate AllFresh<S, Q, V>(c: Config<S, Q, V>, start: S, moves: seq<Move<S, Q>>) {
    moves == [] ||
    (var before, move := moves[..|moves| - 1], moves[|moves| - 1];
     AllFresh(c, start, before) && KeepsFresh(c, Moves(c, start, before), move))
  }

  lemma {:induction false} FlightSound<S, Q, V>(c: Config<S, Q, V>, start: S, moves: seq<Move<S, Q>>)
    ensures Sound(Moves(c, start, moves).cache, c.capacity)
  {
    if moves != [] {
      var before, move := moves[..|moves| - 1], moves[|moves| - 1];
      FlightSound(c, start, before);
      var f := Moves(c, start, before);
      match move
      case Find(query, at) => SoundStep(f.cache, Op.Get(c.keyOf(query), at), c.capacity);
      case Compute(_, _) =>
      case Keep(thread, ids, at) =>
        if thread in f.computed {
          var kept := f.computed[thread];
          SoundStep(f.cache, Op.Put(c.keyOf(kept.query), kept.value, ids, at, c.ttl), c.capacity);
        }
      case Change(_) => SoundStep(f.cache, Purge(Everything()), c.capacity);
    }
  }

  /** Exact hits, told from the entries: each holds the result of every query with its key. */
  lemma ExactEntries<S, Q(!new), V(!new)>(c: Config<S, Q, V>, f: Flight<S, Q, V>)
    requires Sound(f.cache, c.capacity)
    ensures HitsExact(c, f) <==> Current(c, f.store, f.cache.entries)
  {
    if HitsExact(c, f) {
      forall e, q | e in f.cache.entries && c.keyOf(q) == e.key ensures e.value == c.compute(f.store, q) {
        LookupUnique(f.cache.entries, e);
        assert Hit(f.cache.entries, c.keyOf(q), e.expiresAt) == Some(e);
      }
    } else {
      var q, at :| var hit := Hit(f.cache.entries, c.keyOf(q), at);
                   hit.Some? && hit.value.value != c.compute(f.store, q);
      LookupFinds(f.cache.entries, c.keyOf(q));
    }
  }

  /** The stored entry is there after the set, and nothing else is new. */
  lemma KeepStores<V>(st: State<V, Ids>, op: Op<V, Ids>, capacity: nat)
    requires op.Put? && capacity > 0
    ensures Stored(op) in Step(st, op, capacity).entries
    ensures forall e :: e in Step(st, op, capacity).entries ==> e in st.entries || e == Stored(op)
  {
    StepOrigins(st, op, capacity);
    var all := Delete(st.entries, op.key) + [Stored(op)];
    var kept := Evict(all, capacity);
    assert kept[|kept| - 1] == Stored(op);
  }

  lemma MoveKeepsCurrent<S(!new), Q(!new), V(!new)>(c: Config<S, Q, V>, f: Flight<S, Q, V>, move: Move<S, Q>)
    requires KeysSeparate(c) && c.capacity > 0 && Current(c, f.store, f.cache.entries)
    ensures Current(c, Moved(c, f, move).store, Moved(c, f, move).cache.entries) <==> KeepsFresh(c, f, move)
  {
    match move
    case Find(query, at) => StepOrigins(f.cache, Op.Get(c.keyOf(query), at), c.capacity);
    case Compute(_, _) =>
    case Keep(thread, ids, at) =>
      if thread in f.computed {
        var kept := f.computed[thread];
        KeepStores(f.cache, Op.Put(c.keyOf(kept.query), kept.value, ids, at, c.ttl), c.capacity);
      }
    case Change(_) => RejectAll(f.cache.entries, Everything());
  }

  /** For any interleaving: all hits are exact at every moment if and only if every set keeps a
      result that is still the result. */
  lemma {:induction false} ExactInFlight<S(!new), Q(!new), V(!new)>(c: Config<S, Q, V>, start: S, moves: seq<Move<S, Q>>)
    requires KeysSeparate(c) && c.capacity > 0
    ensures AlwaysExact(c, start, moves) <==> AllFresh(c, start, moves)
  {
    FlightSound(c, start, moves);
    ExactEntries(c, Moves(c, start, moves));
    if moves != [] {
      var before, move := moves[..|moves| - 1], moves[|moves| - 1];
      ExactInFlight(c, start, before);
      FlightSound(c, start, before);
      ExactEntries(c, Moves(c, start, before));
      if AlwaysExact(c, start, before) {
        MoveKeepsCurrent(c, Moves(c, start, before), move);
      }
    }
  }

  /** A set is fresh when no write has landed since its computation. */
  lemma {:induction false} FreshWithoutWrite<S, Q, V>(c: Config<S, Q, V>, start: S, before: seq<Move<S, Q>>, t: Thread, q: Q,
                                                      between: seq<Move<S, Q>>)
    requires forall m :: m in between ==> !m.Change? && (m.Compute? || m.Keep? ==> m.thread != t)
    ensures var f := Moves(c, start, before + [Compute(t, q)] + between);
            && f.store == Moves(c, start, before).store
            && t in f.computed && f.computed[t] == Result(q, c.compute(f.store, q))
  {
    var computed := before + [Compute(t, q)];
    if between == [] {
      MovesExtend(c, start, before, Compute(t, q));
      assert computed + [] == computed;
    } else {
      var last := |between| - 1;
      FreshWithoutWrite(c, start, before, t, q, between[..last]);
      MovesExtend(c, start, computed + between[..last], between[last]);
      assert computed + between == computed + between[..last] + [between[last]];
      assert between[last] in between;
    }
  }

  lemma MovesExtend<S, Q, V>(c: Config<S, Q, V>, start: S, moves: seq<Move<S, Q>>, move: Move<S, Q>)
    ensures Moves(c, start, moves + [move]) == Moved(c, Moves(c, start, moves), move)
  {
    assert (moves + [move])[..|moves|] == moves;
  }
}
