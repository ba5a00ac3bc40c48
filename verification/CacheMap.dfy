// `CacheStorageMap`: the cache as an object that updates its map in place and writes to an
// external storage map. Each method is proved to make exactly the `CacheModel.Step` of the
// operation it implements, so the results about runs apply to every history of an object.
module CacheMap {
  import opened Arith
  import opened CacheModel

  // The external storage. Ghost tallies record the traffic.
  class StorageMap<K(==), V> {
    var entries: map<K, V>
    ghost var consulted: multiset<K>
    ghost var written: multiset<K>

    method TryGet(key: K) returns (r: Option<V>)
      modifies `consulted
      ensures r == At(entries, key)
      ensures consulted == old(consulted) + multiset{key}
    {
      consulted := consulted + multiset{key};
      return if key in entries then Some(entries[key]) else None;
    }

    method ContainsKey(key: K) returns (b: bool)
      modifies `consulted
      ensures b == (key in entries)
      ensures consulted == old(consulted) + multiset{key}
    {
      consulted := consulted + multiset{key};
      return key in entries;
    }

    method Insert(key: K, value: V)
      modifies `entries, `written
      ensures entries == old(entries)[key := value]
      ensures written == old(written) + multiset{key}
    {
      entries := entries[key := value];
      written := written + multiset{key};
    }

    method Remove(key: K)
      modifies `entries, `written
      ensures entries == old(entries) - {key}
      ensures written == old(written) + multiset{key}
    {
      entries := entries - {key};
      written := written + multiset{key};
    }
  }

  class CacheStorageMap<K(==), V> {
    var cache: Cache<K, V>
    const storage: StorageMap<K, V>

    constructor (storage: StorageMap<K, V>)
      ensures this.storage == storage
      ensures cache == map[]
      ensures Coherent(Snapshot()) && Abstract(Snapshot()) == Plain(storage.entries, storage.entries)
    {
      this.storage := storage;
      this.cache := map[];
      new;
      assert forall k :: At(storage.entries, k) == VisibleAt(Snapshot(), k);
      VisibleIs(Snapshot(), storage.entries);
    }

    ghost function Snapshot(): State<K, V>
      reads this, storage
    {
      State(cache, storage.entries, storage.consulted, storage.written)
    }

    method ContainsKey(key: K) returns (b: bool)
      modifies storage`consulted
      ensures (Snapshot(), Present(b)) == Step(old(Snapshot()), Contains(key))
    {
      if key in cache {
        match cache[key] {
          case Some(item) => b := !item.Removed?;
          case None => b := false;
        }
      } else {
        b := storage.ContainsKey(key);
      }
    }

    // `entry(key).or_insert_with(..)`.
    method Load(key: K)
      modifies this, storage`consulted
      ensures Snapshot() == Loaded(old(Snapshot()), key)
    {
      if key !in cache {
        var value := storage.TryGet(key);
        cache := cache[key := if value.Some? then Some(Original(value.value)) else None];
      }
    }

    method Get(key: K) returns (r: Option<V>)
      modifies this, storage`consulted
      ensures (Snapshot(), Found(r)) == Step(old(Snapshot()), CacheModel.Get(key))
    {
      Load(key);
      match cache[key] {
        case Some(item) => r := item.Value();
        case None => r := None;
      }
    }

    // `get_mut`, together with what the caller then assigns through the reference.
    method GetMut(key: K, change: Option<V>) returns (r: Option<V>)
      modifies this, storage`consulted
      ensures (Snapshot(), Found(r)) == Step(old(Snapshot()), CacheModel.GetMut(key, change))
    {
      Load(key);
      match cache[key] {
        case Some(item) =>
          var marked := item.MarkAsUpdated();
          cache := cache[key := Some(marked)];
          match marked {
            case Updated(v) =>
              r := Some(v);
              if change.Some? {
                cache := cache[key := Some(Updated(change.value))];
              }
              assert cache == Loaded(old(Snapshot()), key).cache[key := Some(Assigned(item, change))];
            case _ => r := None;
          }
        case None => r := None;
      }
    }

    method Set(key: K, value: V)
      modifies this
      ensures Snapshot() == Step(old(Snapshot()), CacheModel.Set(key, value)).0
    {
      cache := cache[key := Some(Updated(value))];
    }

    method Remove(key: K)
      modifies this, storage`consulted
      ensures Snapshot() == Step(old(Snapshot()), CacheModel.Remove(key)).0
    {
      if key in cache {
        if cache[key].Some? {
          cache := cache[key := Some(Removed)];
        }
        assert key in old(cache) && old(cache)[key] == None ==> cache == old(cache)[key := None];
      } else {
        var stored := storage.ContainsKey(key);
        cache := cache[key := if stored then Some(Removed) else None];
      }
    }

    // The body of the commit loop, for one entry.
    method FlushEntry(key: K)
      requires key in cache
      modifies this, storage`entries, storage`written
      ensures cache == old(cache)[key := Settled(old(cache)[key])]
      ensures storage.entries == FlushInto(old(storage.entries), key, old(cache)[key])
      ensures storage.written == old(storage.written) + WriteTally(key, old(cache)[key])
    {
      match cache[key] {
        case Some(Updated(value)) =>
          storage.Insert(key, value);
          cache := cache[key := Some(Original(value))];
        case Some(Removed) =>
          storage.Remove(key);
        case _ =>
      }
      assert cache == old(cache)[key := Settled(old(cache)[key])];
    }

    // The loop of `commit` over all entries.
    method FlushAll()
      modifies this, storage`entries, storage`written
      ensures cache == Settling(old(cache), old(cache).Keys)
      ensures storage.entries == Flushed(old(cache), old(storage.entries), old(cache).Keys)
      ensures storage.written == old(storage.written) + multiset(Dirty(old(cache)))
    {
      ghost var was, before, tally := cache, storage.entries, storage.written;
      var todo := cache.Keys;
      ghost var done: set<K> := {};
      NothingSettled(was);
      BeforeFlush(was, before);
      AllWritten(was);
      assert Between(was.Keys, todo, done);
      hide Settling, Flushed, Dirty, FlushInto, Settled, WriteTally, WrittenBy, Between;
      while todo != {}
        invariant Between(was.Keys, todo, done)
        invariant cache == Settling(was, done)
        invariant storage.entries == Flushed(was, before, done)
        invariant storage.written == tally + WrittenBy(was, done)
        decreases todo
      {
        var key :| key in todo;
        Advance(was.Keys, todo, done, key);
        FlushOne(was, before, done, key);
        SettleOne(was, done, key);
        WriteOne(was, done, key, tally);
        FlushEntry(key);
        todo, done := todo - {key}, done + {key};
      }
      Finished(was.Keys, done);
    }

    method Commit()
      modifies this, storage`entries, storage`written
      ensures Snapshot() == Step(old(Snapshot()), CacheModel.Commit).0
    {
      FlushAll();
      AfterFlush(old(cache));
      cache := map k | k in cache && cache[k].Some? && cache[k].value.Original? :: cache[k];
    }

    method Reset()
      modifies this
      ensures Snapshot() == Step(old(Snapshot()), CacheModel.Reset).0
    {
      cache := map[];
    }
  }

  // Any history of calls on an object: the answers and the final storage are those of a
  // plain working map over a committed map.
  method Replay<K(==), V>(c: CacheStorageMap<K, V>, ops: seq<Op<K, V>>) returns (answers: seq<Answer<V>>)
    requires Coherent(c.Snapshot())
    modifies c, c.storage
    ensures Coherent(c.Snapshot())
    ensures answers == PlainRun(old(Abstract(c.Snapshot())), ops).1
    ensures Abstract(c.Snapshot()) == PlainRun(old(Abstract(c.Snapshot())), ops).0
    decreases |ops|
  {
    if ops == [] {
      return [];
    }
    StepRefines(c.Snapshot(), ops[0]);
    hide Coherent, Abstract, Step, PlainStep;
    var answer := Call(c, ops[0]);
    var rest := Replay(c, ops[1..]);
    answers := [answer] + rest;
  }

  method Call<K(==), V>(c: CacheStorageMap<K, V>, op: Op<K, V>) returns (answer: Answer<V>)
    modifies c, c.storage
    ensures (c.Snapshot(), answer) == Step(old(c.Snapshot()), op)
  {
    match op {
      case Contains(k) =>
        var b := c.ContainsKey(k);
        answer := Present(b);
      case Get(k) =>
        var v := c.Get(k);
        answer := Found(v);
      case GetMut(k, change) =>
        var v := c.GetMut(k, change);
        answer := Found(v);
      case Set(k, v) =>
        c.Set(k, v);
        answer := Done;
      case Remove(k) =>
        c.Remove(k);
        answer := Done;
      case Commit =>
        c.Commit();
        answer := Done;
      case Reset =>
        c.Reset();
        answer := Done;
    }
  }

  // What the commit loop leaves in place of an entry before the final `retain`.
  ghost function Settled<V>(entry: Option<Item<V>>): Option<Item<V>> {
    match entry
    case Some(Updated(v)) => Some(Original(v))
    case other => other
  }

  ghost function FlushInto<K, V>(stored: map<K, V>, key: K, entry: Option<Item<V>>): map<K, V> {
    match entry
    case Some(Updated(v)) => stored[key := v]
    case Some(Removed) => stored - {key}
    case _ => stored
  }

  ghost function WriteTally<K, V>(key: K, entry: Option<Item<V>>): multiset<K> {
    if IsDirty(entry) then multiset{key} else multiset{}
  }

  // The writes a commit has made once the keys in `done` are flushed.
  ghost function WrittenBy<K, V>(cache: Cache<K, V>, done: set<K>): multiset<K> {
    multiset(Dirty(cache) * done)
  }

  ghost function Settling<K, V>(cache: Cache<K, V>, done: set<K>): Cache<K, V> {
    map k | k in cache :: if k in done then Settled(cache[k]) else cache[k]
  }

  // The bookkeeping of a loop over a set of keys: what is to do and what is done.
  ghost predicate Between<K>(keys: set<K>, todo: set<K>, done: set<K>) {
    todo !! done && todo + done == keys
  }

  lemma Advance<K>(keys: set<K>, todo: set<K>, done: set<K>, k: K)
    requires Between(keys, todo, done) && k in todo
    ensures Between(keys, todo - {k}, done + {k})
    ensures k in keys && k !in done
  {
  }

  lemma Finished<K>(keys: set<K>, done: set<K>)
    requires Between(keys, {}, done)
    ensures done == keys
  {
  }

  lemma NothingSettled<K, V>(cache: Cache<K, V>)
    ensures Settling(cache, {}) == cache
  {
  }

  lemma BeforeFlush<K, V>(cache: Cache<K, V>, stored: map<K, V>)
    ensures Flushed(cache, stored, {}) == stored
  {
  }

  lemma SettleOne<K, V>(cache: Cache<K, V>, done: set<K>, key: K)
    requires key in cache && key !in done
    ensures key in Settling(cache, done) && Settling(cache, done)[key] == cache[key]
    ensures Settling(cache, done + {key}) == Settling(cache, done)[key := Settled(cache[key])]
  {
  }

  lemma WriteOne<K, V>(cache: Cache<K, V>, done: set<K>, key: K, tally: multiset<K>)
    requires key in cache && key !in done
    ensures tally + WrittenBy(cache, done) + WriteTally(key, cache[key])
         == tally + WrittenBy(cache, done + {key})
  {
  }

  lemma TallyUnion<K>(tally: multiset<K>, a: set<K>, b: set<K>)
    requires a !! b
    ensures tally + multiset(a) + multiset(b) == tally + multiset(a + b)
  {
  }

  lemma AllWritten<K, V>(cache: Cache<K, V>)
    ensures WrittenBy(cache, {}) == multiset{}
    ensures WrittenBy(cache, cache.Keys) == multiset(Dirty(cache))
  {
  }

  lemma AfterFlush<K, V>(cache: Cache<K, V>)
    ensures var c := Settling(cache, cache.Keys);
            (map k | k in c && c[k].Some? && c[k].value.Original? :: c[k]) == Retained(cache)
  {
  }

  lemma FlushOne<K, V>(cache: Cache<K, V>, stored: map<K, V>, done: set<K>, key: K)
    requires key in cache && key !in done
    ensures Flushed(cache, stored, done + {key})
         == FlushInto(Flushed(cache, stored, done), key, cache[key])
  {
    assert forall k | k != key ::
      FlushedAt(cache, stored, done + {key}, k) == FlushedAt(cache, stored, done, k);
  }
}
