/** src/cache.py: a bounded cache of search results with expiry and project tags. Every
    method body runs under the object's lock, so a history of calls is a sequence of atomic
    operations whatever threads made them. */
module QueryCache {
  import opened Sequences
  import opened Lru

  /** Entries tagged with `project`, compared case-insensitively; untagged entries never match. */
  function InProject<V>(lower: string -> string, project: string): Entry<V, Option<string>> -> bool {
    (e: Entry<V, Option<string>>) => e.tag.Some? && lower(e.tag.value) == lower(project)
  }

  class QueryCache<V(!new)> {
    const maxsize: nat
    const defaultTtl: real
    const lower: string -> string
    var cache: seq<Entry<V, Option<string>>>
    var hitCount: nat
    var missCount: nat
    ghost var history: seq<Op<V, Option<string>>>

    /** The object is in the state its history of operations leads to. */
    ghost predicate Valid()
      reads this
    {
      State(cache, hitCount, missCount) == Run(history, maxsize)
    }

    constructor (maxsize: nat, defaultTtl: real, lower: string -> string)
      ensures Valid() && history == [] && cache == [] && hitCount == missCount == 0
      ensures this.maxsize == maxsize && this.defaultTtl == defaultTtl && this.lower == lower
    {
      this.maxsize, this.defaultTtl, this.lower := maxsize, defaultTtl, lower;
      cache, hitCount, missCount, history := [], 0, 0, [];
    }

    method Get(key: Key, now: real) returns (result: Option<V>)
      requires Valid()
      modifies this
      ensures Valid() && history == old(history) + [Op.Get(key, now)]
      ensures result == match Hit(old(cache), key, now) case None => None case Some(e) => Some(e.value)
      ensures hitCount - old(hitCount) == (if result.Some? then 1 else 0)
      ensures missCount - old(missCount) == (if result.Some? then 0 else 1)
    {
      history := history + [Op.Get(key, now)];
      RunExtend(old(history), Op.Get(key, now), maxsize);
      LookupFinds(cache, key);
      var entry := Lookup(cache, key);
      if entry.None? {
        RejectNothing(cache, HasKey(key));
        missCount := missCount + 1;
        return None;
      }
      if now > entry.value.expiresAt {
        cache := Delete(cache, key);
        missCount := missCount + 1;
        return None;
      }
      cache := MoveToEnd(cache, key);
      hitCount := hitCount + 1;
      return Some(entry.value.value);
    }

    method Put(key: Key, value: V, ttl: Option<real>, project: Option<string>, now: real)
      requires Valid()
      modifies this
      ensures Valid() && hitCount == old(hitCount) && missCount == old(missCount)
      ensures var lifetime := if ttl.Some? then ttl.value else defaultTtl;
              && history == old(history) + [Op.Put(key, value, project, now, lifetime)]
              && cache == Evict(Delete(old(cache), key) + [Entry(key, value, now + lifetime, project)], maxsize)
    {
      var lifetime := if ttl.Some? then ttl.value else defaultTtl;
      var entry := Entry(key, value, now + lifetime, project);
      ghost var op := Op.Put(key, value, project, now, lifetime);
      assert Stored(op) == entry;
      RunExtend(history, op, maxsize);
      cache := Store(cache, entry, maxsize);
      history := history + [op];
    }

    method Invalidate(project: Option<string>) returns (count: nat)
      requires Valid()
      modifies this
      ensures Valid() && count == |old(cache)| - |cache|
      ensures hitCount == old(hitCount) && missCount == old(missCount)
      ensures history == old(history) + [Purge(if project.None? then Everything() else InProject(lower, project.value))]
      ensures project.None? ==> cache == []
      ensures project.Some? ==> cache == Reject(old(cache), InProject(lower, project.value))
      ensures project.Some? ==> forall e :: e in cache <==>
                e in old(cache) && (e.tag.None? || lower(e.tag.value) != lower(project.value))
    {
      if project.None? {
        RunPurge(history, Everything(), maxsize, State(cache, hitCount, missCount));
        RejectAll(cache, Everything());
        count := |cache|;
        cache := [];
        history := history + [Purge(Everything())];
        return;
      }
      RunPurge(history, InProject(lower, project.value), maxsize, State(cache, hitCount, missCount));
      RejectMembers(cache, InProject(lower, project.value));
      cache, count := RemoveWhere(cache, InProject(lower, project.value));
      history := history + [Purge(InProject(lower, project.value))];
    }

    method ClearExpired(now: real) returns (count: nat)
      requires Valid()
      modifies this
      ensures Valid() && count == |old(cache)| - |cache|
      ensures hitCount == old(hitCount) && missCount == old(missCount)
      ensures history == old(history) + [Purge(Expired(now))]
      ensures cache == Reject(old(cache), Expired(now))
      ensures forall e :: e in cache <==> e in old(cache) && now <= e.expiresAt
    {
      RejectMembers(cache, Expired(now));
      RunPurge(history, Expired(now), maxsize, State(cache, hitCount, missCount));
      cache, count := RemoveWhere(cache, Expired(now));
      history := history + [Purge(Expired(now))];
    }
  }
}
