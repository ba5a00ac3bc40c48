// `CacheStorageDoubleMap` (common/src/cache_storage/cache_double_map.rs): the same cache over
// a storage map with two keys, kept as a map of rows, with one operation more: reading a
// whole row at once.
module CacheDoubleMap {
  import opened Arith
  import opened CacheModel
  import opened CacheMap

  type Rows<K1, K2, V> = map<K1, Cache<K2, V>>

  // The rows as one cache over pairs of keys.
  function Flat<K1, K2, V>(rows: Rows<K1, K2, V>): Cache<(K1, K2), V> {
    map k1, k2 | k1 in rows && k2 in rows[k1] :: (k1, k2) := rows[k1][k2]
  }

  function RowOf<K1, K2, V>(rows: Rows<K1, K2, V>, k1: K1): Cache<K2, V> {
    if k1 in rows then rows[k1] else map[]
  }

  // The part of a map over pairs that belongs to one first key.
  ghost function Row<K1, K2, V>(m: map<(K1, K2), V>, k1: K1): map<K2, V> {
    map k | k in m && k.0 == k1 :: k.1 := m[k]
  }

  // ------------------------------------------------------------------- reading a row

  ghost function RowKeys<K1, K2, V>(m: map<(K1, K2), V>, k1: K1): set<(K1, K2)> {
    set k | k in m && k.0 == k1
  }

  // `load`: every stored key of the row is read, and its value cached unless the key is
  // already known.
  ghost function LoadedRow<K1, K2, V>(s: State<(K1, K2), V>, k1: K1): State<(K1, K2), V> {
    s.(cache := s.cache + (map k | k in s.stored && k.0 == k1 && k !in s.cache :: Some(Original(s.stored[k]))),
       consulted := s.consulted + multiset(RowKeys(s.stored, k1)))
  }

  function EntryValue<K, V>(cache: Cache<K, V>, k: K): Option<V> {
    if k in cache then ItemValue(cache[k]) else None
  }

  // Loading a row is invisible, and afterwards the cache alone knows the whole row.
  lemma LoadRowRefines<K1, K2, V>(s: State<(K1, K2), V>, k1: K1)
    requires Coherent(s)
    ensures Coherent(LoadedRow(s, k1))
    ensures Abstract(LoadedRow(s, k1)) == Abstract(s)
    ensures forall k2 :: VisibleAt(s, (k1, k2)) == EntryValue(LoadedRow(s, k1).cache, (k1, k2))
  {
    var s' := LoadedRow(s, k1);
    forall k
      ensures At(Visible(s), k) == VisibleAt(s', k)
    {
      VisibleAtVisible(s, k);
    }
    VisibleIs(s', Visible(s));
  }

  datatype DoubleOp<K1, K2, V> = One(op: Op<(K1, K2), V>) | GetByPrefix(key1: K1)

  datatype DoubleAnswer<K2, V> = Single(answer: Answer<V>) | Whole(row: map<K2, V>)

  ghost function CachedRow<K1, K2, V>(cache: Cache<(K1, K2), V>, k1: K1): map<K2, V> {
    map k | k in cache && k.0 == k1 && ItemValue(cache[k]).Some? :: k.1 := ItemValue(cache[k]).value
  }

  ghost function DoubleStep<K1, K2, V>(s: State<(K1, K2), V>, op: DoubleOp<K1, K2, V>)
    : (State<(K1, K2), V>, DoubleAnswer<K2, V>)
  {
    match op
    case One(o) => (Step(s, o).0, Single(Step(s, o).1))
    case GetByPrefix(k1) => (LoadedRow(s, k1), Whole(CachedRow(LoadedRow(s, k1).cache, k1)))
  }

  ghost function DoublePlainStep<K1, K2, V>(p: Plain<(K1, K2), V>, op: DoubleOp<K1, K2, V>)
    : (Plain<(K1, K2), V>, DoubleAnswer<K2, V>)
  {
    match op
    case One(o) => (PlainStep(p, o).0, Single(PlainStep(p, o).1))
    case GetByPrefix(k1) => (p, Whole(Row(p.working, k1)))
  }

  ghost function DoubleRun<K1, K2, V>(s: State<(K1, K2), V>, ops: seq<DoubleOp<K1, K2, V>>)
    : (State<(K1, K2), V>, seq<DoubleAnswer<K2, V>>)
    decreases |ops|
  {
    if ops == [] then (s, [])
    else
      var (s', a) := DoubleStep(s, ops[0]);
      var (s'', rest) := DoubleRun(s', ops[1..]);
      (s'', [a] + rest)
  }

  ghost function DoublePlainRun<K1, K2, V>(p: Plain<(K1, K2), V>, ops: seq<DoubleOp<K1, K2, V>>)
    : (Plain<(K1, K2), V>, seq<DoubleAnswer<K2, V>>)
    decreases |ops|
  {
    if ops == [] then (p, [])
    else
      var (p', a) := DoublePlainStep(p, ops[0]);
      var (p'', rest) := DoublePlainRun(p', ops[1..]);
      (p'', [a] + rest)
  }

  lemma RowIsVisible<K1, K2, V>(s: State<(K1, K2), V>, k1: K1)
    requires Coherent(s)
    ensures CachedRow(LoadedRow(s, k1).cache, k1) == Row(Visible(s), k1)
  {
    LoadRowRefines(s, k1);
    var row, seen := CachedRow(LoadedRow(s, k1).cache, k1), Row(Visible(s), k1);
    forall k2
      ensures At(row, k2) == At(seen, k2)
    {
      VisibleAtVisible(s, (k1, k2));
      RowAt(Visible(s), k1, k2);
      CachedRowAt(LoadedRow(s, k1).cache, k1, k2);
    }
    SameMap(row, seen);
  }

  lemma RowAt<K1, K2, V>(m: map<(K1, K2), V>, k1: K1, k2: K2)
    ensures At(Row(m, k1), k2) == At(m, (k1, k2))
  {
  }

  lemma CachedRowAt<K1, K2, V>(cache: Cache<(K1, K2), V>, k1: K1, k2: K2)
    ensures At(CachedRow(cache, k1), k2) == EntryValue(cache, (k1, k2))
  {
  }

  lemma SameMap<K, V>(a: map<K, V>, b: map<K, V>)
    requires forall k :: At(a, k) == At(b, k)
    ensures a == b
  {
    assert forall k :: k in a <==> At(a, k).Some?;
    assert forall k :: k in b <==> At(b, k).Some?;
    assert forall k | k in a :: a[k] == At(a, k).value;
    assert forall k | k in b :: b[k] == At(b, k).value;
  }

  // Every run, row reads included: same answers and same storage as the plain maps.
  lemma {:induction false} DoubleRunRefines<K1, K2, V>(s: State<(K1, K2), V>, ops: seq<DoubleOp<K1, K2, V>>)
    requires Coherent(s)
    ensures Coherent(DoubleRun(s, ops).0)
    ensures DoubleRun(s, ops).1 == DoublePlainRun(Abstract(s), ops).1
    ensures Abstract(DoubleRun(s, ops).0) == DoublePlainRun(Abstract(s), ops).0
    decreases |ops|
  {
    hide Step, PlainStep, Coherent, LoadedRow, CachedRow, Row, Visible;
    if ops != [] {
      match ops[0] {
        case One(op) => StepRefines(s, op);
        case GetByPrefix(k1) =>
          LoadRowRefines(s, k1);
          RowIsVisible(s, k1);
      }
      DoubleRunRefines(DoubleStep(s, ops[0]).0, ops[1..]);
    }
  }

  // -------------------------------------------------------------------------- reads

  // How often a run consults storage for k through get, get_mut and remove.
  ghost function SingleReads<K1, K2, V>(s: State<(K1, K2), V>, ops: seq<DoubleOp<K1, K2, V>>, k: (K1, K2)): int
    decreases |ops|
  {
    if ops == [] then 0
    else
      var s' := DoubleStep(s, ops[0]).0;
      (if ops[0].GetByPrefix? || ops[0].op.Contains? then 0 else s'.consulted[k] - s.consulted[k])
      + SingleReads(s', ops[1..], k)
  }

  // A row read consults exactly the stored keys of the row, once each, and leaves them cached.
  lemma ReadsOfRow<K1, K2, V>(s: State<(K1, K2), V>, k1: K1, k: (K1, K2))
    ensures var s' := LoadedRow(s, k1);
            && s'.consulted[k] == s.consulted[k] + (if k.0 == k1 && k in s.stored then 1 else 0)
            && (k in s'.cache <==> k in s.cache || (k.0 == k1 && k in s.stored))
            && (k in Dirty(s'.cache) <==> k in Dirty(s.cache))
  {
  }

  // Between commits and resets, and however they are mixed with row reads, get, get_mut and
  // remove together consult storage at most once per pair of keys: not at all for a cached
  // one, hence not for a stored one after its row was read.
  lemma {:induction false} OneSingleReadPerKey<K1, K2, V>(
    s: State<(K1, K2), V>, ops: seq<DoubleOp<K1, K2, V>>, k: (K1, K2))
    requires forall i | 0 <= i < |ops| :: ops[i].One? ==> Buffers(ops[i].op)
    ensures 0 <= SingleReads(s, ops, k) <= 1
    ensures k in s.cache ==> SingleReads(s, ops, k) == 0
    ensures ops != [] && ops[0] == GetByPrefix(k.0) && k in s.stored ==> SingleReads(s, ops, k) == 0
    decreases |ops|
  {
    hide Step, LoadedRow;
    if ops != [] {
      match ops[0] {
        case One(op) => ReadsOfStep(s, op, k);
        case GetByPrefix(k1) => ReadsOfRow(s, k1, k);
      }
      OneSingleReadPerKey(DoubleStep(s, ops[0]).0, ops[1..], k);
    }
  }

  // ------------------------------------------------------------------------- the object

  lemma FlatSet<K1, K2, V>(rows: Rows<K1, K2, V>, k1: K1, k2: K2, entry: Option<Item<V>>)
    ensures Flat(rows[k1 := RowOf(rows, k1)[k2 := entry]]) == Flat(rows)[(k1, k2) := entry]
  {
    var rows' := rows[k1 := RowOf(rows, k1)[k2 := entry]];
    hide Flat;
    forall k
      ensures At(Flat(rows'), k) == At(Flat(rows)[(k1, k2) := entry], k)
    {
      FlatRow(rows, k.0, k.1);
      FlatRow(rows', k.0, k.1);
    }
    SameMap(Flat(rows'), Flat(rows)[(k1, k2) := entry]);
  }

  lemma FlatRow<K1, K2, V>(rows: Rows<K1, K2, V>, k1: K1, k2: K2)
    ensures (k1, k2) in Flat(rows) <==> k2 in RowOf(rows, k1)
    ensures k2 in RowOf(rows, k1) ==> Flat(rows)[(k1, k2)] == RowOf(rows, k1)[k2]
  {
  }

  lemma NoRows<K1, K2, V>()
    ensures Flat<K1, K2, V>(map[]) == map[]
  {
  }

  // The row after `load`, given what storage has for it.
  ghost function Filled<K2, V>(row: Cache<K2, V>, found: map<K2, V>): Cache<K2, V> {
    row + (map k2 | k2 in found && k2 !in row :: Some(Original(found[k2])))
  }

  lemma FlatFilledAt<K1, K2, V>(rows: Rows<K1, K2, V>, k1: K1, s: State<(K1, K2), V>, j1: K1, j2: K2)
    requires s.cache == Flat(rows)
    ensures At(Flat(rows[k1 := Filled(RowOf(rows, k1), Row(s.stored, k1))]), (j1, j2))
         == At(LoadedRow(s, k1).cache, (j1, j2))
  {
    var row := Filled(RowOf(rows, k1), Row(s.stored, k1));
    RowAt(s.stored, k1, j2);
    FlatRow(rows, j1, j2);
    FlatRow(rows[k1 := row], j1, j2);
    hide Flat, Row;
  }

  lemma FlatFilled<K1, K2, V>(rows: Rows<K1, K2, V>, k1: K1, s: State<(K1, K2), V>)
    requires s.cache == Flat(rows)
    ensures Flat(rows[k1 := Filled(RowOf(rows, k1), Row(s.stored, k1))]) == LoadedRow(s, k1).cache
  {
    hide Flat, Row, Filled, LoadedRow;
    var flat, goal := Flat(rows[k1 := Filled(RowOf(rows, k1), Row(s.stored, k1))]), LoadedRow(s, k1).cache;
    forall k
      ensures At(flat, k) == At(goal, k)
    {
      FlatFilledAt(rows, k1, s, k.0, k.1);
    }
    SameMap(flat, goal);
  }

  lemma LoadedRowFrame<K1, K2, V>(s: State<(K1, K2), V>, k1: K1)
    ensures LoadedRow(s, k1) == State(LoadedRow(s, k1).cache, s.stored,
                                      s.consulted + multiset(RowKeys(s.stored, k1)), s.written)
  {
  }

  // The loop of `load`.
  method FillRow<K2(==), V>(row: Cache<K2, V>, found: map<K2, V>) returns (r: Cache<K2, V>)
    ensures r == Filled(row, found)
  {
    r := row;
    var todo := found.Keys;
    while todo != {}
      invariant todo <= found.Keys
      invariant r.Keys == row.Keys + (found.Keys - todo)
      invariant forall k2 | k2 in r :: r[k2] == if k2 in row then row[k2] else Some(Original(found[k2]))
      decreases todo
    {
      var k2 :| k2 in todo;
      if k2 !in r {
        r := r[k2 := Some(Original(found[k2]))];
      }
      todo := todo - {k2};
    }
  }

  lemma FlatCachedRow<K1, K2, V>(rows: Rows<K1, K2, V>, k1: K1)
    requires k1 in rows
    ensures CachedRow(Flat(rows), k1)
         == map k2 | k2 in rows[k1] && ItemValue(rows[k1][k2]).Some? :: ItemValue(rows[k1][k2]).value
  {
    var a := CachedRow(Flat(rows), k1);
    var b := map k2 | k2 in rows[k1] && ItemValue(rows[k1][k2]).Some? :: ItemValue(rows[k1][k2]).value;
    forall k2
      ensures At(a, k2) == At(b, k2)
    {
      CachedRowAt(Flat(rows), k1, k2);
      FlatRow(rows, k1, k2);
    }
    SameMap(a, b);
  }

  // ------------------------------------------------------------------- committing rows

  // One row as a cache over pairs of keys.
  ghost function Lifted<K1, K2, V>(k1: K1, row: Cache<K2, V>): Cache<(K1, K2), V> {
    map k2 | k2 in row :: (k1, k2) := row[k2]
  }

  ghost function LiftedKeys<K1, K2>(k1: K1, keys: set<K2>): set<(K1, K2)> {
    set k2 | k2 in keys :: (k1, k2)
  }

  // The pairs of keys of the rows in `done`.
  ghost function Pairs<K1, K2, V>(rows: Rows<K1, K2, V>, done: set<K1>): set<(K1, K2)> {
    set k | k in Flat(rows) && k.0 in done
  }

  // Rows in `done` have been flushed and reduced to what is known to be stored.
  ghost function Committing<K1, K2, V>(rows: Rows<K1, K2, V>, done: set<K1>): Rows<K1, K2, V> {
    map k1 | k1 in rows :: if k1 in done then Retained(rows[k1]) else rows[k1]
  }

  lemma LiftOne<K1, K2, V>(k1: K1, row: Cache<K2, V>, done: set<K2>, k2: K2)
    requires k2 in row && k2 !in done
    ensures LiftedKeys(k1, done + {k2}) == LiftedKeys(k1, done) + {(k1, k2)}
    ensures (k1, k2) in Lifted(k1, row) && (k1, k2) !in LiftedKeys(k1, done)
    ensures Lifted(k1, row)[(k1, k2)] == row[k2]
  {
  }

  // Storage and its write tally once the keys in `done` of one row are flushed.
  ghost function FlushedRow<K1, K2, V>(k1: K1, row: Cache<K2, V>, stored: map<(K1, K2), V>,
                                       done: set<K2>): map<(K1, K2), V> {
    Flushed(Lifted(k1, row), stored, LiftedKeys(k1, done))
  }

  ghost function WrittenRow<K1, K2, V>(k1: K1, row: Cache<K2, V>, tally: multiset<(K1, K2)>,
                                       done: set<K2>): multiset<(K1, K2)> {
    tally + WrittenBy(Lifted(k1, row), LiftedKeys(k1, done))
  }

  lemma StartRow<K1, K2, V>(k1: K1, row: Cache<K2, V>, stored: map<(K1, K2), V>, tally: multiset<(K1, K2)>)
    ensures Settling(row, {}) == row
    ensures FlushedRow(k1, row, stored, {}) == stored
    ensures WrittenRow(k1, row, tally, {}) == tally
  {
    NothingSettled(row);
    assert LiftedKeys<K1, K2>(k1, {}) == {};
    BeforeFlush(Lifted(k1, row), stored);
    AllWritten(Lifted(k1, row));
  }

  lemma FlushPair<K1, K2, V>(k1: K1, row: Cache<K2, V>, stored: map<(K1, K2), V>,
                             tally: multiset<(K1, K2)>, done: set<K2>, k2: K2)
    requires k2 in row && k2 !in done
    ensures FlushedRow(k1, row, stored, done + {k2})
         == FlushInto(FlushedRow(k1, row, stored, done), (k1, k2), row[k2])
    ensures WrittenRow(k1, row, tally, done + {k2})
         == WrittenRow(k1, row, tally, done) + WriteTally((k1, k2), row[k2])
  {
    LiftOne(k1, row, done, k2);
    hide Flushed, Lifted, LiftedKeys, WrittenBy, WriteTally, FlushInto;
    FlushOne(Lifted(k1, row), stored, LiftedKeys(k1, done), (k1, k2));
    WriteOne(Lifted(k1, row), LiftedKeys(k1, done), (k1, k2), tally);
  }

  lemma FlushRow<K1, K2, V>(rows: Rows<K1, K2, V>, stored: map<(K1, K2), V>, done: set<K1>, k1: K1)
    requires k1 in rows && k1 !in done
    ensures FlushedRow(k1, rows[k1], Flushed(Flat(rows), stored, Pairs(rows, done)), rows[k1].Keys)
         == Flushed(Flat(rows), stored, Pairs(rows, done + {k1}))
  {
    hide Flushed, Flat, Pairs, FlushedRow;
    var a := FlushedRow(k1, rows[k1], Flushed(Flat(rows), stored, Pairs(rows, done)), rows[k1].Keys);
    var b := Flushed(Flat(rows), stored, Pairs(rows, done + {k1}));
    forall k
      ensures At(a, k) == At(b, k)
    {
      FlushRowAt(rows, stored, done, k1, k);
    }
    SameMap(a, b);
  }

  lemma AtFlushed<K, V>(cache: Cache<K, V>, stored: map<K, V>, done: set<K>, k: K)
    ensures At(Flushed(cache, stored, done), k) == FlushedAt(cache, stored, done, k)
  {
  }

  lemma FlushRowAt<K1, K2, V>(rows: Rows<K1, K2, V>, stored: map<(K1, K2), V>, done: set<K1>, k1: K1, k: (K1, K2))
    requires k1 in rows && k1 !in done
    ensures At(FlushedRow(k1, rows[k1], Flushed(Flat(rows), stored, Pairs(rows, done)), rows[k1].Keys), k)
         == At(Flushed(Flat(rows), stored, Pairs(rows, done + {k1})), k)
  {
    var row := Lifted(k1, rows[k1]);
    var before := Flushed(Flat(rows), stored, Pairs(rows, done));
    AtFlushed(row, before, LiftedKeys(k1, rows[k1].Keys), k);
    AtFlushed(Flat(rows), stored, Pairs(rows, done), k);
    AtFlushed(Flat(rows), stored, Pairs(rows, done + {k1}), k);
    FlatRow(rows, k.0, k.1);
    LiftedAt(k1, rows[k1], k);
    assert k in LiftedKeys(k1, rows[k1].Keys) <==> k in row by {
      if k in row {
        assert k == (k1, k.1);
      }
    }
    hide Flushed, Flat, Lifted, LiftedKeys;
  }

  lemma CommitOne<K1, K2, V>(rows: Rows<K1, K2, V>, done: set<K1>, k1: K1)
    requires k1 in rows && k1 !in done
    ensures k1 in Committing(rows, done) && Committing(rows, done)[k1] == rows[k1]
    ensures Committing(rows, done + {k1}) == Committing(rows, done)[k1 := Retained(rows[k1])]
  {
  }

  lemma WriteRow<K1, K2, V>(rows: Rows<K1, K2, V>, done: set<K1>, k1: K1, tally: multiset<(K1, K2)>)
    requires k1 in rows && k1 !in done
    ensures WrittenRow(k1, rows[k1], tally + WrittenBy(Flat(rows), Pairs(rows, done)), rows[k1].Keys)
         == tally + WrittenBy(Flat(rows), Pairs(rows, done + {k1}))
  {
    var a := Dirty(Flat(rows)) * Pairs(rows, done);
    var b := Dirty(Lifted(k1, rows[k1])) * LiftedKeys(k1, rows[k1].Keys);
    var c := Dirty(Flat(rows)) * Pairs(rows, done + {k1});
    assert a !! b && c == a + b by {
      hide Dirty, Flat, Lifted, LiftedKeys, Pairs;
      forall k
        ensures k in c <==> k in a || k in b
        ensures !(k in a && k in b)
      {
        WriteRowAt(rows, done, k1, k);
      }
    }
    hide Dirty, Flat, Lifted, LiftedKeys, Pairs;
    TallyUnion(tally, a, b);
  }

  lemma WriteRowAt<K1, K2, V>(rows: Rows<K1, K2, V>, done: set<K1>, k1: K1, k: (K1, K2))
    requires k1 in rows && k1 !in done
    ensures var a := Dirty(Flat(rows)) * Pairs(rows, done);
            var b := Dirty(Lifted(k1, rows[k1])) * LiftedKeys(k1, rows[k1].Keys);
            var c := Dirty(Flat(rows)) * Pairs(rows, done + {k1});
            (k in c <==> k in a || k in b) && !(k in a && k in b)
  {
  }

  lemma LiftedAt<K1, K2, V>(k1: K1, row: Cache<K2, V>, k: (K1, K2))
    ensures k in Lifted(k1, row) <==> k.0 == k1 && k.1 in row
    ensures k in Lifted(k1, row) ==> Lifted(k1, row)[k] == row[k.1]
  {
  }

  lemma CommitAll<K1, K2, V>(rows: Rows<K1, K2, V>, stored: map<(K1, K2), V>)
    ensures Committing(rows, {}) == rows && Pairs(rows, {}) == {}
    ensures Flushed(Flat(rows), stored, {}) == stored
    ensures Pairs(rows, rows.Keys) == Flat(rows).Keys
    ensures Flat(Committing(rows, rows.Keys)) == Retained(Flat(rows))
  {
  }

  // `Storage::iter_prefix`: one pass over the stored keys of a row.
  method IterPrefix<K1(==), K2(==), V>(storage: StorageMap<(K1, K2), V>, key1: K1) returns (found: map<K2, V>)
    modifies storage`consulted
    ensures found == Row(storage.entries, key1)
    ensures storage.consulted == old(storage.consulted) + multiset(RowKeys(storage.entries, key1))
  {
    storage.consulted := storage.consulted + multiset(RowKeys(storage.entries, key1));
    return map k | k in storage.entries && k.0 == key1 :: k.1 := storage.entries[k];
  }

  class CacheStorageDoubleMap<K1(==), K2(==), V> {
    var cache: Rows<K1, K2, V>
    const storage: StorageMap<(K1, K2), V>

    constructor (storage: StorageMap<(K1, K2), V>)
      ensures this.storage == storage && cache == map[]
      ensures Coherent(Snapshot()) && Abstract(Snapshot()) == Plain(storage.entries, storage.entries)
    {
      this.storage := storage;
      this.cache := map[];
      new;
      NoRows<K1, K2, V>();
      assert forall k :: At(storage.entries, k) == VisibleAt(Snapshot(), k);
      VisibleIs(Snapshot(), storage.entries);
    }

    ghost function Snapshot(): State<(K1, K2), V>
      reads this, storage
    {
      State(Flat(cache), storage.entries, storage.consulted, storage.written)
    }

    method ContainsKey(key1: K1, key2: K2) returns (b: bool)
      modifies storage`consulted
      ensures (Snapshot(), Present(b)) == Step(old(Snapshot()), Contains((key1, key2)))
    {
      FlatRow(cache, key1, key2);
      if key1 in cache && key2 in cache[key1] {
        match cache[key1][key2] {
          case Some(item) => return !item.Removed?;
          case None => return false;
        }
      }
      b := storage.ContainsKey((key1, key2));
    }

    // `entry(key1).or_default().entry(key2).or_insert_with(..)`.
    method Load(key1: K1, key2: K2)
      modifies this, storage`consulted
      ensures Snapshot() == Loaded(old(Snapshot()), (key1, key2))
      ensures key1 in cache && key2 in cache[key1]
    {
      FlatRow(cache, key1, key2);
      var row := RowOf(cache, key1);
      if key2 !in row {
        var value := storage.TryGet((key1, key2));
        var entry := if value.Some? then Some(Original(value.value)) else None;
        FlatSet(cache, key1, key2, entry);
        cache := cache[key1 := row[key2 := entry]];
      }
    }

    method Get(key1: K1, key2: K2) returns (r: Option<V>)
      modifies this, storage`consulted
      ensures (Snapshot(), Found(r)) == Step(old(Snapshot()), CacheModel.Get((key1, key2)))
    {
      Load(key1, key2);
      FlatRow(cache, key1, key2);
      match cache[key1][key2] {
        case Some(item) => r := item.Value();
        case None => r := None;
      }
    }

    method Set(key1: K1, key2: K2, value: V)
      modifies this
      ensures Snapshot() == Step(old(Snapshot()), CacheModel.Set((key1, key2), value)).0
    {
      FlatSet(cache, key1, key2, Some(Updated(value)));
      hide Flat;
      cache := cache[key1 := RowOf(cache, key1)[key2 := Some(Updated(value))]];
    }

    method Remove(key1: K1, key2: K2)
      modifies this, storage`consulted
      ensures Snapshot() == Step(old(Snapshot()), CacheModel.Remove((key1, key2))).0
    {
      FlatRow(cache, key1, key2);
      hide Flat;
      var row := RowOf(cache, key1);
      var entry: Option<Item<V>>;
      if key2 in row {
        entry := if row[key2].Some? then Some(Removed) else None;
      } else {
        var stored := storage.ContainsKey((key1, key2));
        entry := if stored then Some(Removed) else None;
      }
      FlatSet(cache, key1, key2, entry);
      cache := cache[key1 := row[key2 := entry]];
    }

    // `get_mut`, together with what the caller then assigns through the reference.
    method GetMut(key1: K1, key2: K2, change: Option<V>) returns (r: Option<V>)
      modifies this, storage`consulted
      ensures (Snapshot(), Found(r)) == Step(old(Snapshot()), CacheModel.GetMut((key1, key2), change))
    {
      Load(key1, key2);
      FlatRow(cache, key1, key2);
      match cache[key1][key2] {
        case Some(item) =>
          r := item.MarkAsUpdated().Value();
          FlatSet(cache, key1, key2, Some(Assigned(item, change)));
          cache := cache[key1 := cache[key1][key2 := Some(Assigned(item, change))]];
        case None => r := None;
      }
    }

    // `load`: all of the row, without overwriting what is cached.
    method LoadRow(key1: K1)
      modifies this, storage`consulted
      ensures Snapshot() == LoadedRow(old(Snapshot()), key1)
      ensures key1 in cache
    {
      ghost var s := Snapshot();
      LoadedRowFrame(s, key1);
      FlatFilled(cache, key1, s);
      hide Flat, Row, Filled, LoadedRow, RowKeys;
      var found := IterPrefix(storage, key1);
      var row := FillRow(RowOf(cache, key1), found);
      cache := cache[key1 := row];
    }

    method GetByPrefix(key1: K1) returns (r: map<K2, V>)
      modifies this, storage`consulted
      ensures (Snapshot(), Whole(r)) == DoubleStep(old(Snapshot()), DoubleOp.GetByPrefix(key1))
    {
      LoadRow(key1);
      var row := cache[key1];
      FlatCachedRow(cache, key1);
      r := map k2 | k2 in row && ItemValue(row[k2]).Some? :: ItemValue(row[k2]).value;
    }

    // The inner loop of `commit`, over the entries of one row.
    method FlushEntries(key1: K1, entries: Cache<K2, V>) returns (row: Cache<K2, V>)
      modifies storage`entries, storage`written
      ensures row == Settling(entries, entries.Keys)
      ensures storage.entries == FlushedRow(key1, entries, old(storage.entries), entries.Keys)
      ensures storage.written == WrittenRow(key1, entries, old(storage.written), entries.Keys)
    {
      ghost var before, tally := storage.entries, storage.written;
      row := entries;
      var todo := row.Keys;
      ghost var done: set<K2> := {};
      StartRow(key1, entries, before, tally);
      assert Between(entries.Keys, todo, done);
      hide Settling, Settled, FlushedRow, WrittenRow, FlushInto, WriteTally, Between;
      while todo != {}
        invariant Between(entries.Keys, todo, done)
        invariant row == Settling(entries, done)
        invariant storage.entries == FlushedRow(key1, entries, before, done)
        invariant storage.written == WrittenRow(key1, entries, tally, done)
        decreases todo
      {
        var key2 :| key2 in todo;
        Advance(entries.Keys, todo, done, key2);
        FlushPair(key1, entries, before, tally, done, key2);
        SettleOne(entries, done, key2);
        row := FlushEntry(key1, key2, row);
        todo, done := todo - {key2}, done + {key2};
      }
      Finished(entries.Keys, done);
    }

    // One pass of the outer loop: the row's entries, then the `retain` that ends the pass.
    method CommitRow(key1: K1)
      requires key1 in cache
      modifies this, storage`entries, storage`written
      ensures cache == old(cache)[key1 := Retained(old(cache)[key1])]
      ensures storage.entries == FlushedRow(key1, old(cache)[key1], old(storage.entries), old(cache)[key1].Keys)
      ensures storage.written == WrittenRow(key1, old(cache)[key1], old(storage.written), old(cache)[key1].Keys)
    {
      AfterFlush(cache[key1]);
      hide Settling, FlushedRow, WrittenRow, Retained;
      var row := FlushEntries(key1, cache[key1]);
      cache := cache[key1 := map k | k in row && row[k].Some? && row[k].value.Original? :: row[k]];
    }

    method FlushEntry(key1: K1, key2: K2, row: Cache<K2, V>) returns (r: Cache<K2, V>)
      requires key2 in row
      modifies storage`entries, storage`written
      ensures r == row[key2 := Settled(row[key2])]
      ensures storage.entries == FlushInto(old(storage.entries), (key1, key2), row[key2])
      ensures storage.written == old(storage.written) + WriteTally((key1, key2), row[key2])
    {
      r := row;
      match row[key2] {
        case Some(Updated(value)) =>
          storage.Insert((key1, key2), value);
          r := row[key2 := Some(Original(value))];
        case Some(Removed) =>
          storage.Remove((key1, key2));
        case _ =>
      }
      assert r == row[key2 := Settled(row[key2])];
    }

    // The outer loop of `commit`.
    method CommitRows()
      modifies this, storage`entries, storage`written
      ensures Flat(cache) == Retained(Flat(old(cache)))
      ensures storage.entries == Flushed(Flat(old(cache)), old(storage.entries), Flat(old(cache)).Keys)
      ensures storage.written == old(storage.written) + multiset(Dirty(Flat(old(cache))))
    {
      ghost var was, before, tally := cache, storage.entries, storage.written;
      var todo := cache.Keys;
      ghost var done: set<K1> := {};
      CommitAll(was, before);
      AllWritten(Flat(was));
      assert Between(was.Keys, todo, done);
      hide Committing, Flushed, Flat, Pairs, Dirty, Retained, FlushedRow, WrittenRow, WrittenBy, Between;
      while todo != {}
        invariant Between(was.Keys, todo, done)
        invariant cache == Committing(was, done)
        invariant storage.entries == Flushed(Flat(was), before, Pairs(was, done))
        invariant storage.written == tally + WrittenBy(Flat(was), Pairs(was, done))
        decreases todo
      {
        var key1 :| key1 in todo;
        Advance(was.Keys, todo, done, key1);
        FlushRow(was, before, done, key1);
        CommitOne(was, done, key1);
        WriteRow(was, done, key1, tally);
        CommitRow(key1);
        todo, done := todo - {key1}, done + {key1};
      }
      Finished(was.Keys, done);
    }

    method Commit()
      modifies this, storage`entries, storage`written
      ensures Snapshot() == Step(old(Snapshot()), CacheModel.Commit).0
    {
      CommitRows();
    }

    method Reset()
      modifies this
      ensures Snapshot() == Step(old(Snapshot()), CacheModel.Reset).0
    {
      cache := map[];
      NoRows<K1, K2, V>();
    }
  }
}
