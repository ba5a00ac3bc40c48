// What a write-back cache over a storage map does, operation by operation, and what it
// amounts to (common/src/cache_storage/cache_map.rs, item.rs).
//
// `Step` is the cache: entries that remember the stored value, pending values, tombstones,
// and the knowledge that a key is absent. `PlainStep` is the reference: a working map over
// a committed map. Every run of the two gives the same answers and the same storage.
module CacheModel {
  import opened Arith

  datatype Item<V> = Original(value: V) | Updated(value: V) | Removed {
    function Value(): Option<V> {
      match this
      case Original(v) => Some(v)
      case Updated(v) => Some(v)
      case Removed => None
    }

    function MarkAsUpdated(): Item<V> {
      match this
      case Original(v) => Updated(v)
      case Updated(v) => Updated(v)
      case Removed => Removed
    }
  }

  type Cache<K, V> = map<K, Option<Item<V>>>

  // `consulted` and `written` tally, per key, how often storage was consulted and written.
  datatype State<K, V> = State(cache: Cache<K, V>, stored: map<K, V>,
                               consulted: multiset<K>, written: multiset<K>)

  // GetMut carries what the caller assigns through the returned reference, if anything.
  datatype Op<K, V> =
    | Contains(key: K)
    | Get(key: K)
    | GetMut(key: K, change: Option<V>)
    | Set(key: K, value: V)
    | Remove(key: K)
    | Commit
    | Reset

  datatype Answer<V> = Present(present: bool) | Found(found: Option<V>) | Done

  function At<K, V>(m: map<K, V>, k: K): Option<V> {
    if k in m then Some(m[k]) else None
  }

  function ItemValue<V>(entry: Option<Item<V>>): Option<V> {
    if entry.Some? then entry.value.Value() else None
  }

  // `entry(key).or_insert_with(try_get)`: consult storage only for an unknown key.
  function Loaded<K, V>(s: State<K, V>, k: K): State<K, V> {
    if k in s.cache then s
    else
      var entry := if k in s.stored then Some(Original(s.stored[k])) else None;
      s.(cache := s.cache[k := entry], consulted := s.consulted + multiset{k})
  }

  function Assigned<V>(item: Item<V>, change: Option<V>): Item<V> {
    match item.MarkAsUpdated()
    case Updated(v) => if change.Some? then Updated(change.value) else Updated(v)
    case other => other
  }

  predicate IsDirty<V>(entry: Option<Item<V>>) {
    entry.Some? && !entry.value.Original?
  }

  function Dirty<K, V>(cache: Cache<K, V>): set<K> {
    set k | k in cache && IsDirty(cache[k])
  }

  // Storage once the keys in `done` have been flushed.
  function FlushedAt<K, V>(cache: Cache<K, V>, stored: map<K, V>, done: set<K>, k: K): Option<V> {
    if k in done && k in cache && IsDirty(cache[k]) then cache[k].value.Value() else At(stored, k)
  }

  function Flushed<K, V>(cache: Cache<K, V>, stored: map<K, V>, done: set<K>): map<K, V> {
    map k | k in stored.Keys + cache.Keys && FlushedAt(cache, stored, done, k).Some?
      :: FlushedAt(cache, stored, done, k).value
  }

  // What is left in the cache: values now known to be stored. Tombstones and negative
  // entries are dropped.
  function Retained<K, V>(cache: Cache<K, V>): Cache<K, V> {
    map k | k in cache && ItemValue(cache[k]).Some? :: Some(Original(ItemValue(cache[k]).value))
  }

  function Step<K, V>(s: State<K, V>, op: Op<K, V>): (State<K, V>, Answer<V>) {
    match op
    case Contains(k) =>
      if k in s.cache then (s, Present(s.cache[k].Some? && !s.cache[k].value.Removed?))
      else (s.(consulted := s.consulted + multiset{k}), Present(k in s.stored))
    case Get(k) =>
      var s' := Loaded(s, k);
      (s', Found(ItemValue(s'.cache[k])))
    case GetMut(k, change) =>
      var s' := Loaded(s, k);
      if s'.cache[k].Some? then
        var item := Assigned(s'.cache[k].value, change);
        (s'.(cache := s'.cache[k := Some(item)]), Found(s'.cache[k].value.Value()))
      else (s', Found(None))
    case Set(k, v) =>
      (s.(cache := s.cache[k := Some(Updated(v))]), Done)
    case Remove(k) =>
      if k in s.cache then
        (s.(cache := s.cache[k := if s.cache[k].Some? then Some(Removed) else None]), Done)
      else
        (s.(cache := s.cache[k := if k in s.stored then Some(Removed) else None],
            consulted := s.consulted + multiset{k}), Done)
    case Commit =>
      (State(Retained(s.cache), Flushed(s.cache, s.stored, s.cache.Keys), s.consulted,
             s.written + multiset(Dirty(s.cache))), Done)
    case Reset =>
      (s.(cache := map[]), Done)
  }

  function Run<K, V>(s: State<K, V>, ops: seq<Op<K, V>>): (State<K, V>, seq<Answer<V>>)
    decreases |ops|
  {
    if ops == [] then (s, [])
    else
      var (s', a) := Step(s, ops[0]);
      var (s'', rest) := Run(s', ops[1..]);
      (s'', [a] + rest)
  }

  // ---------------------------------------------------------------------- the reference

  datatype Plain<K, V> = Plain(working: map<K, V>, committed: map<K, V>)

  function PlainStep<K, V>(p: Plain<K, V>, op: Op<K, V>): (Plain<K, V>, Answer<V>) {
    match op
    case Contains(k) => (p, Present(k in p.working))
    case Get(k) => (p, Found(At(p.working, k)))
    case GetMut(k, change) =>
      (if k in p.working && change.Some? then p.(working := p.working[k := change.value]) else p,
       Found(At(p.working, k)))
    case Set(k, v) => (p.(working := p.working[k := v]), Done)
    case Remove(k) => (p.(working := p.working - {k}), Done)
    case Commit => (p.(committed := p.working), Done)
    case Reset => (p.(working := p.committed), Done)
  }

  function PlainRun<K, V>(p: Plain<K, V>, ops: seq<Op<K, V>>): (Plain<K, V>, seq<Answer<V>>)
    decreases |ops|
  {
    if ops == [] then (p, [])
    else
      var (p', a) := PlainStep(p, ops[0]);
      var (p'', rest) := PlainRun(p', ops[1..]);
      (p'', [a] + rest)
  }

  // ------------------------------------------------------------------------- refinement

  // Clean entries agree with storage, as long as nobody else writes to it.
  ghost predicate Coherent<K, V>(s: State<K, V>) {
    forall k | k in s.cache && !IsDirty(s.cache[k]) :: ItemValue(s.cache[k]) == At(s.stored, k)
  }

  function VisibleAt<K, V>(s: State<K, V>, k: K): Option<V> {
    if k in s.cache then ItemValue(s.cache[k]) else At(s.stored, k)
  }

  // The map a client sees through the cache.
  function Visible<K, V>(s: State<K, V>): map<K, V> {
    map k | k in s.stored.Keys + s.cache.Keys && VisibleAt(s, k).Some? :: VisibleAt(s, k).value
  }

  function Abstract<K, V>(s: State<K, V>): Plain<K, V> {
    Plain(Visible(s), s.stored)
  }

  lemma VisibleIs<K, V>(s: State<K, V>, m: map<K, V>)
    requires forall k :: At(m, k) == VisibleAt(s, k)
    ensures Visible(s) == m
  {
    forall k
      ensures At(Visible(s), k) == At(m, k)
    {
      assert At(m, k) == VisibleAt(s, k);
    }
    assert forall k :: k in Visible(s) <==> At(Visible(s), k).Some?;
    assert forall k :: k in m <==> At(m, k).Some?;
    assert forall k | k in m :: m[k] == At(m, k).value;
    assert forall k | k in m :: Visible(s)[k] == At(Visible(s), k).value;
  }

  lemma VisibleAtVisible<K, V>(s: State<K, V>, k: K)
    ensures At(Visible(s), k) == VisibleAt(s, k)
  {
  }

  lemma CommitMakesVisibleStored<K, V>(s: State<K, V>)
    requires Coherent(s)
    ensures Flushed(s.cache, s.stored, s.cache.Keys) == Visible(s)
  {
  }

  lemma StepAnswer<K, V>(s: State<K, V>, op: Op<K, V>)
    ensures Step(s, op).1 == PlainStep(Abstract(s), op).1
  {
  }

  lemma LoadKeepsVisible<K, V>(s: State<K, V>, j: K, k: K)
    ensures VisibleAt(Loaded(s, j), k) == VisibleAt(s, k)
    ensures j in Loaded(s, j).cache && ItemValue(Loaded(s, j).cache[j]) == VisibleAt(s, j)
    ensures Loaded(s, j).stored == s.stored
  {
  }

  lemma GetMutVisibleAt<K, V>(s: State<K, V>, j: K, change: Option<V>, k: K)
    ensures VisibleAt(Step(s, GetMut(j, change)).0, k)
         == At(PlainStep(Abstract(s), GetMut(j, change)).0.working, k)
  {
    LoadKeepsVisible(s, j, k);
    VisibleAtVisible(s, j);
    VisibleAtVisible(s, k);
    hide Loaded, Visible;
  }

  lemma StepVisibleAt<K, V>(s: State<K, V>, op: Op<K, V>, k: K)
    requires !op.Commit?
    ensures VisibleAt(Step(s, op).0, k) == At(PlainStep(Abstract(s), op).0.working, k)
  {
    VisibleAtVisible(s, k);
    hide Loaded, Visible;
    match op {
      case Contains(_) =>
      case Get(j) => LoadKeepsVisible(s, j, k);
      case GetMut(j, change) => GetMutVisibleAt(s, j, change, k);
      case Set(_, _) =>
      case Remove(_) =>
      case Reset =>
    }
  }

  lemma StepCoherent<K, V>(s: State<K, V>, op: Op<K, V>)
    requires Coherent(s)
    ensures Coherent(Step(s, op).0)
  {
    match op {
      case Contains(_) =>
      case Get(_) =>
      case GetMut(_, _) =>
      case Set(_, _) =>
      case Remove(_) =>
      case Commit => CommitCoherent(s);
      case Reset =>
    }
  }

  lemma CommitCoherent<K, V>(s: State<K, V>)
    requires Coherent(s)
    ensures Coherent(Step(s, Commit).0)
  {
  }

  lemma StepRefines<K, V>(s: State<K, V>, op: Op<K, V>)
    requires Coherent(s)
    ensures Coherent(Step(s, op).0)
    ensures Abstract(Step(s, op).0) == PlainStep(Abstract(s), op).0
    ensures Step(s, op).1 == PlainStep(Abstract(s), op).1
  {
    StepAnswer(s, op);
    StepCoherent(s, op);
    hide Coherent;
    if op.Commit? {
      CommitRefines(s);
    } else {
      var m := PlainStep(Abstract(s), op).0.working;
      forall k
        ensures At(m, k) == VisibleAt(Step(s, op).0, k)
      {
        StepVisibleAt(s, op, k);
      }
      VisibleIs(Step(s, op).0, m);
    }
  }

  lemma CommitRefines<K, V>(s: State<K, V>)
    requires Coherent(s)
    ensures Abstract(Step(s, Commit).0) == Plain(Visible(s), Visible(s))
  {
    CommitMakesVisibleStored(s);
    var s' := Step(s, Commit).0;
    forall k
      ensures At(Visible(s), k) == VisibleAt(s', k)
    {
      VisibleAtVisible(s, k);
    }
    VisibleIs(s', Visible(s));
  }

  // Every run, from a new cache or in the middle: same answers, same visible map, same
  // committed storage.
  lemma {:induction false} RunRefines<K, V>(s: State<K, V>, ops: seq<Op<K, V>>)
    requires Coherent(s)
    ensures Coherent(Run(s, ops).0)
    ensures Run(s, ops).1 == PlainRun(Abstract(s), ops).1
    ensures Abstract(Run(s, ops).0) == PlainRun(Abstract(s), ops).0
    decreases |ops|
  {
    hide Step, PlainStep, Coherent, Abstract;
    if ops != [] {
      StepRefines(s, ops[0]);
      RunRefines(Step(s, ops[0]).0, ops[1..]);
    }
  }

  // ------------------------------------------------------------ one read, one write

  predicate Buffers<K, V>(op: Op<K, V>) { !op.Commit? && !op.Reset? }

  // How often a run consults storage for k, contains_key aside.
  ghost function ReadsBy<K, V>(s: State<K, V>, ops: seq<Op<K, V>>, k: K): int
    decreases |ops|
  {
    if ops == [] then 0
    else
      var s' := Step(s, ops[0]).0;
      (if ops[0].Contains? then 0 else s'.consulted[k] - s.consulted[k]) + ReadsBy(s', ops[1..], k)
  }

  // An operation other than contains_key consults storage for k exactly when it starts
  // caching k and does not merely set it; contains_key does when k is not cached.
  lemma ReadsOfStep<K, V>(s: State<K, V>, op: Op<K, V>, k: K)
    requires Buffers(op)
    ensures var s' := Step(s, op).0;
            && (k in s.cache ==> k in s'.cache && s'.consulted[k] == s.consulted[k])
            && s'.consulted[k] - s.consulted[k] ==
                 (if k !in s.cache && !op.Set? && op.key == k then 1 else 0)
            && (k !in s.cache && !op.Contains? && op.key == k ==> k in s'.cache)
  {
  }

  // Between commits and resets, all get, get_mut and remove calls together consult storage
  // at most once per key, however they are mixed with contains_key, which does not fill the
  // cache. For a key already cached nothing is consulted at all.
  lemma {:induction false} OneReadPerKey<K, V>(s: State<K, V>, ops: seq<Op<K, V>>, k: K)
    requires forall i | 0 <= i < |ops| :: Buffers(ops[i])
    ensures 0 <= ReadsBy(s, ops, k) <= 1
    ensures k in s.cache ==> ReadsBy(s, ops, k) == 0 && Run(s, ops).0.consulted[k] == s.consulted[k]
    decreases |ops|
  {
    if ops != [] {
      assert Buffers(ops[0]);
      ReadsOfStep(s, ops[0], k);
      OneReadPerKey(Step(s, ops[0]).0, ops[1..], k);
    }
  }

  // Reading alone never causes a write: a key that is clean and that no operation modifies
  // is still clean when the commit comes.
  ghost predicate Modifies<K, V>(op: Op<K, V>, k: K) {
    (op.Set? || op.Remove? || op.GetMut?) && op.key == k
  }

  lemma StepKeepsClean<K, V>(s: State<K, V>, op: Op<K, V>, k: K)
    requires k !in Dirty(s.cache) && !Modifies(op, k)
    ensures k !in Dirty(Step(s, op).0.cache)
    ensures Step(s, op).0.written[k] == s.written[k]
  {
  }

  lemma {:induction false} CleanStaysClean<K, V>(s: State<K, V>, ops: seq<Op<K, V>>, k: K)
    requires k !in Dirty(s.cache)
    requires forall i | 0 <= i < |ops| :: !Modifies(ops[i], k)
    ensures k !in Dirty(Run(s, ops).0.cache)
    ensures Run(s, ops).0.written[k] == s.written[k]
    decreases |ops|
  {
    hide Step, Dirty, Modifies;
    if ops != [] {
      StepKeepsClean(s, ops[0], k);
      CleanStaysClean(Step(s, ops[0]).0, ops[1..], k);
    }
  }

  // What a step caches and what it leaves to be written, key by key. A commit forgets only
  // tombstones and negative entries, so what was visible in the cache is not read again;
  // removing or asking to modify a key that is absent leaves nothing to write.
  predicate CachedAfter<K, V>(s: State<K, V>, op: Op<K, V>, k: K) {
    match op
    case Contains(_) => k in s.cache
    case Commit => k in s.cache && ItemValue(s.cache[k]).Some?
    case Reset => false
    case _ => k in s.cache || op.key == k
  }

  predicate DirtyAfter<K, V>(s: State<K, V>, op: Op<K, V>, k: K) {
    match op
    case Commit => false
    case Reset => false
    case Set(j, _) => k == j || k in Dirty(s.cache)
    case Remove(j) => (k == j && VisibleAt(s, k).Some?) || k in Dirty(s.cache)
    case GetMut(j, _) => (k == j && VisibleAt(s, k).Some?) || k in Dirty(s.cache)
    case _ => k in Dirty(s.cache)
  }

  lemma StepTracks<K, V>(s: State<K, V>, op: Op<K, V>, k: K)
    ensures k in Step(s, op).0.cache <==> CachedAfter(s, op, k)
    ensures k in Dirty(Step(s, op).0.cache) <==> DirtyAfter(s, op, k)
  {
    StepCaches(s, op, k);
    StepDirties(s, op, k);
    hide Step, Dirty, CachedAfter, DirtyAfter;
  }

  lemma StepCaches<K, V>(s: State<K, V>, op: Op<K, V>, k: K)
    ensures k in Step(s, op).0.cache <==> CachedAfter(s, op, k)
  {
    hide Dirty, Flushed;
  }

  lemma StepDirties<K, V>(s: State<K, V>, op: Op<K, V>, k: K)
    ensures k in Dirty(Step(s, op).0.cache) <==> DirtyAfter(s, op, k)
  {
    InDirty(s.cache, k);
    InDirty(Step(s, op).0.cache, k);
    hide Dirty, Flushed;
  }

  lemma InDirty<K, V>(cache: Cache<K, V>, k: K)
    ensures k in Dirty(cache) <==> k in cache && IsDirty(cache[k])
  {
  }

  // A commit writes each pending key once and no other key; nothing is pending afterwards,
  // so an immediate second commit changes nothing and writes nothing.
  lemma CommitWritesOnce<K, V>(s: State<K, V>, k: K)
    ensures var s' := Step(s, Commit).0;
            && s'.written[k] == s.written[k] + (if k in Dirty(s.cache) then 1 else 0)
            && Dirty(s'.cache) == {}
            && Step(s', Commit).0 == s'
  {
    var s' := Step(s, Commit).0;
    assert Retained(s'.cache) == s'.cache;
    assert forall j :: FlushedAt(s'.cache, s'.stored, s'.cache.Keys, j) == At(s'.stored, j);
    assert Flushed(s'.cache, s'.stored, s'.cache.Keys) == s'.stored;
  }
}
