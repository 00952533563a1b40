/** The store object: a database, the list of known keys and a byte counter.
    Each method is proved to be the corresponding step on values. */
module KvStore {
  import opened ByteOrder
  import opened Runs
  import opened Levels
  import opened Manifest
  import opened DbModel
  import opened Db
  import opened Keyspace
  import opened KeyIndex

  datatype KVResult = OK | Fail(message: string)

  /** The map a database stands for. */
  ghost predicate Answers(s: DbState, data: map<Bytes, Bytes>)
    requires DbInvariant(s)
  {
    forall k: Bytes :: Visible(Meaning(s, k)) == Find(data, k)
  }

  /** The map its readers see. */
  ghost predicate Shows(s: DbState, seen: map<Bytes, Bytes>)
    requires DbInvariant(s)
  {
    forall k: Bytes :: Visible(Read(s, k)) == Find(seen, k)
  }

  /** The table the flusher holds decides the key: nothing newer knows it, and
      what it says is not what the tree says. */
  ghost predicate Decides(s: DbState, key: Bytes)
    requires LevelsWellFormed(s.levels)
  {
    && Lookup(s.active, key).None? && Latest(s.queue, key).None? && Slot(s.flushing, key).Some?
    && Visible(Slot(s.flushing, key)) != Visible(TreeAnswer(s.levels, 0, key))
  }

  /** Get shows a key as it is if and only if no popped table decides it. */
  lemma ShownIff(s: DbState, data: map<Bytes, Bytes>, seen: map<Bytes, Bytes>, key: Bytes)
    requires DbInvariant(s) && s.pending.None? && Answers(s, data) && Shows(s, seen)
    ensures Find(seen, key) == Find(data, key) <==> !Decides(s, key)
  {
    assert Visible(Meaning(s, key)) == Find(data, key);
    assert Visible(Read(s, key)) == Find(seen, key);
  }

  lemma ShownExactly(s: DbState, kv: KvState)
    requires DbInvariant(s) && s.pending.None? && Answers(s, kv.data) && Shows(s, kv.seen)
    ensures forall k :: Unhidden(kv, k) <==> !Decides(s, k)
  {
    hide Answers, Shows, Decides;
    forall k ensures Unhidden(kv, k) <==> !Decides(s, k) {
      ShownIff(s, kv.data, kv.seen, k);
    }
  }

  lemma QuietShows(s: DbState, data: map<Bytes, Bytes>)
    requires DbInvariant(s) && s.pending.None? && s.flushing.None? && Answers(s, data)
    ensures Shows(s, data)
  {
    forall k: Bytes ensures Visible(Read(s, k)) == Find(data, k) {
      QuietReadIsExact(s, k);
      assert Visible(Meaning(s, k)) == Find(data, k);
    }
  }

  lemma ShowsOne(s: DbState, a: map<Bytes, Bytes>, b: map<Bytes, Bytes>)
    requires DbInvariant(s) && Shows(s, a) && Shows(s, b)
    ensures a == b
  {
    forall k ensures Find(a, k) == Find(b, k) {
      assert Visible(Read(s, k)) == Find(a, k);
      assert Visible(Read(s, k)) == Find(b, k);
    }
    assert forall k :: k in a <==> Find(a, k).Some?;
    assert forall k :: k in b <==> Find(b, k).Some?;
  }

  lemma AnswersAfterPut(s: DbState, t: DbState, data: map<Bytes, Bytes>, key: Bytes, value: Bytes)
    requires DbInvariant(s) && DbInvariant(t) && Answers(s, data)
    requires forall k: Bytes :: Meaning(t, k) == if k == key then Some(value) else Meaning(s, k)
    ensures Answers(t, Written(data, key, value))
  {
    hide Meaning;
    forall k: Bytes ensures Visible(Meaning(t, k)) == Find(Written(data, key, value), k) {
      assert Visible(Meaning(s, k)) == Find(data, k);
    }
  }

  lemma ShowsAfterPut(s: DbState, t: DbState, seen: map<Bytes, Bytes>, key: Bytes, value: Bytes)
    requires DbInvariant(s) && DbInvariant(t) && Shows(s, seen)
    requires forall k: Bytes :: Read(t, k) == if k == key then Some(value) else Read(s, k)
    ensures Shows(t, Written(seen, key, value))
  {
    hide Read;
    forall k: Bytes ensures Visible(Read(t, k)) == Find(Written(seen, key, value), k) {
      assert Visible(Read(s, k)) == Find(seen, k);
    }
  }

  lemma AnswersStill(s: DbState, t: DbState, data: map<Bytes, Bytes>)
    requires DbInvariant(s) && DbInvariant(t) && Answers(s, data)
    requires forall k: Bytes :: Meaning(t, k) == Meaning(s, k)
    ensures Answers(t, data)
  {
    hide Meaning;
    forall k: Bytes ensures Visible(Meaning(t, k)) == Find(data, k) {
      assert Visible(Meaning(s, k)) == Find(data, k);
    }
  }

  lemma FreshAnswers()
    ensures DbInvariant(Fresh()) && Answers(Fresh(), map[]) && Shows(Fresh(), map[])
  {
    FreshIsGood();
    forall k: Bytes ensures Meaning(Fresh(), k) == None {
      assert TreeAnswer([[]], 0, k) == None;
    }
    QuietShows(Fresh(), map[]);
  }

  /** While the flusher holds the only table there is, readers see nothing. */
  lemma PoppedHidesAll(t: Table, data: map<Bytes, Bytes>)
    requires GoodFlush(t) && forall k: Bytes :: Find(data, k) == Visible(Lookup(t, k))
    ensures var s := Fresh().(flushing := Some(t));
            DbInvariant(s) && s.pending.None? && Answers(s, data) && Shows(s, map[])
  {
    hide Lookup;
    FreshIsGood();
    var s := Fresh().(flushing := Some(t));
    forall k: Bytes ensures Meaning(s, k) == Lookup(t, k) && Read(s, k) == None {
      NothingIn(k);
      assert TreeAnswer([[]], 0, k) == None;
    }
  }

  // ---- what readers see is always a finite map ----

  function TableKeys(t: Table): set<Bytes> {
    set i | 0 <= i < |t| :: t[i].key
  }

  function QueueKeys(tables: seq<Table>): set<Bytes> {
    if tables == [] then {} else QueueKeys(tables[..|tables| - 1]) + TableKeys(tables[|tables| - 1])
  }

  function LevelKeys(ssts: seq<Sst>): set<Bytes> {
    set i, j | 0 <= i < |ssts| && 0 <= j < |ssts[i].entries| :: ssts[i].entries[j].key
  }

  function TreeKeys(levels: seq<seq<Sst>>, i: nat): set<Bytes>
    requires i <= |levels|
    decreases |levels| - i
  {
    if i == |levels| then {} else LevelKeys(levels[i]) + TreeKeys(levels, i + 1)
  }

  lemma {:induction false} QueueKnows(tables: seq<Table>, key: Bytes)
    requires Latest(tables, key).Some?
    ensures key in QueueKeys(tables)
  {
    if Lookup(tables[|tables| - 1], key).None? {
      QueueKnows(tables[..|tables| - 1], key);
    }
  }

  lemma LevelKnown(level: nat, ssts: seq<Sst>, key: Bytes)
    requires AllWellFormed(ssts) && LevelAnswer(level, ssts, key).Some?
    ensures key in LevelKeys(ssts)
  {
    if level == 0 {
      var i :| 0 <= i < |ssts| && Lookup(NewestFirst(ssts)[i], key).Some?;
      assert Lookup(ssts[|ssts| - 1 - i].entries, key).Some?;
    }
  }

  lemma {:induction false} TreeKnown(levels: seq<seq<Sst>>, i: nat, key: Bytes)
    requires LevelsWellFormed(levels) && i <= |levels| && TreeAnswer(levels, i, key).Some?
    ensures key in TreeKeys(levels, i)
    decreases |levels| - i
  {
    hide LevelAnswer, LevelKeys;
    if i < |levels| {
      if LevelAnswer(i, levels[i], key).Some? {
        LevelKnown(i, levels[i], key);
      } else {
        TreeKnown(levels, i + 1, key);
      }
    }
  }

  ghost function Shown(s: DbState): map<Bytes, Bytes>
    requires DbInvariant(s)
  {
    map k | k in TableKeys(s.active) + QueueKeys(s.queue) + TreeKeys(s.levels, 0) && Visible(Read(s, k)).Some?
          :: Visible(Read(s, k)).value
  }

  lemma ShownShows(s: DbState)
    requires DbInvariant(s)
    ensures Shows(s, Shown(s))
  {
    hide TableKeys, QueueKeys, TreeKeys, Latest, Lookup, TreeAnswer;
    forall k: Bytes ensures Visible(Read(s, k)) == Find(Shown(s), k) {
      if Visible(Read(s, k)).Some? { ReadKnown(s, k); }
    }
  }

  lemma ReadKnown(s: DbState, key: Bytes)
    requires DbInvariant(s) && Read(s, key).Some?
    ensures key in TableKeys(s.active) + QueueKeys(s.queue) + TreeKeys(s.levels, 0)
  {
    hide QueueKeys, TreeKeys, Latest, TreeAnswer;
    if Lookup(s.active, key).None? {
      if Latest(s.queue, key).Some? { QueueKnows(s.queue, key); } else { TreeKnown(s.levels, 0, key); }
    }
  }

  /** The database shows a value for every known key. */
  ghost predicate AllShown(s: KvState) {
    forall k :: k in s.known ==> k in s.seen
  }

  lemma SameMeaning(s: DbState, step: Step, sizeOf: seq<Entry> -> nat)
    requires DbInvariant(s) && Enabled(s, step) && !step.Write?
    ensures DbInvariant(After(s, step, sizeOf))
    ensures forall k: Bytes :: Meaning(After(s, step, sizeOf), k) == Meaning(s, k)
  {
    hide Meaning;
    StepKeepsInvariant(s, step, sizeOf);
    forall k: Bytes ensures Meaning(After(s, step, sizeOf), k) == Meaning(s, k) {
      StepMeaning(s, step, sizeOf, k);
    }
  }

  class DBKVStore {
    const db: DB
    var closed: bool
    var knownKeys: seq<Bytes>
    var trackedBytes: int
    /** What the database holds, and what it shows. */
    ghost var data: map<Bytes, Bytes>
    ghost var seen: map<Bytes, Bytes>

    /** Between two calls no write is half way and the memtable is within its limit;
        the flusher may be anywhere. */
    ghost predicate Valid()
      reads this`data, this`seen, db, db.manifest
    {
      && db.Valid() && db.pending.None? && ByteSize(db.memtable) <= db.memtableMaxSize
      && Answers(db.State(), data) && Shows(db.State(), seen)
    }

    ghost function State(): KvState
      reads this
    {
      KvState(data, seen, knownKeys, trackedBytes)
    }

    /** A store in an empty directory. */
    constructor (memtableMaxSize: nat, sizeOf: seq<Entry> -> nat)
      ensures Valid() && !closed && fresh(db) && fresh(db.manifest) && db.memtableMaxSize == memtableMaxSize
      ensures State() == KvState(map[], map[], [], 0) && Agrees(State())
    {
      db := new DB(memtableMaxSize, sizeOf);
      closed, knownKeys, trackedBytes, data, seen := false, [], 0, map[], map[];
      new;
      FreshAnswers();
      LoadKeyIndex();
    }

    /** A store over what an earlier one left behind when it was closed. */
    constructor Open(memtableMaxSize: nat, sizeOf: seq<Entry> -> nat, file: Bytes, files: map<nat, Sst>,
                     ghost version: nat, ghost levels: seq<seq<Sst>>, ghost lastId: nat, ghost was: KvState)
      requires Storable(version, levels) && file == Image(version, levels) && OnDisk(files, levels)
      requires DbInvariant(DbState([], None, [], None, levels, lastId))
      requires Answers(DbState([], None, [], None, levels, lastId), was.data)
      ensures Valid() && !closed && fresh(db) && fresh(db.manifest) && db.memtableMaxSize == memtableMaxSize
      ensures State() == AfterReopen(was)
    {
      hide Meaning, Answers, Image, Storable, AfterReopen;
      db := new DB.Open(memtableMaxSize, sizeOf, file, files, version, levels, lastId);
      closed, knownKeys, trackedBytes, data, seen := false, [], 0, was.data, was.data;
      new;
      SameAnswers(DbState([], None, [], None, levels, lastId), db.State(), data);
      QuietShows(db.State(), data);
      LoadKeyIndex();
      ReopenIgnores(was, KvState(was.data, was.data, [], 0));
    }

    method LoadKeyIndex()
      requires Valid() && !closed && knownKeys == [] && trackedBytes == 0 && Quiet(State())
      modifies this`knownKeys, this`trackedBytes
      ensures State() == AfterReopen(old(State()))
    {
      hide Valid, Deserialized;
      var payload := Get(META_KEY);
      if payload.Some? {
        knownKeys := DeserializeKeys(payload.value);
        for i := 0 to |knownKeys|
          modifies this`trackedBytes
          invariant trackedBytes + TotalBytes(knownKeys[i..], data) == TotalBytes(knownKeys, data)
        {
          assert knownKeys[i..][1..] == knownKeys[i + 1..];
          var value := Get(knownKeys[i]);
          if value.Some? {
            trackedBytes := trackedBytes + (|knownKeys[i]| + |value.value|);
          }
        }
      }
    }

    // ---- the database under the index ----

    method DbPut(key: Bytes, value: Bytes)
      requires Valid() && key != []
      modifies this`data, this`seen, db
      ensures Valid() && db.manifest == old(db.manifest)
      ensures data == Written(old(data), key, value) && seen == Written(old(seen), key, value)
    {
      hide Meaning, DbInvariant, Written, Answers, Shows, Read;
      ghost var s := db.State();
      db.Put(key, value);
      AnswersAfterPut(s, db.State(), data, key, value);
      ShowsAfterPut(s, db.State(), seen, key, value);
      data, seen := Written(data, key, value), Written(seen, key, value);
    }

    // ---- the flusher, between calls ----

    /** The flusher takes a table from the queue: the data stay, but the keys that
        this table decides are shown wrongly or not at all. */
    method FlusherPops()
      requires Valid() && db.flushing.None? && db.flushQueue != []
      modifies this`seen, db
      ensures Valid() && db.flushing.Some? && db.manifest == old(db.manifest)
      ensures State() == old(State()).(seen := seen)
      ensures forall k :: Unhidden(State(), k) <==> !Decides(db.State(), k)
    {
      hide Meaning, DbInvariant, Answers, Shows, Read, Decides;
      ghost var s := db.State();
      db.PopSection();
      SameMeaning(s, Pop, db.manifest.sizeOf);
      AnswersStill(s, db.State(), data);
      ShownShows(db.State());
      seen := Shown(db.State());
      ShownExactly(db.State(), State());
    }

    /** The flusher publishes its table: everything is shown again. */
    method FlusherPublishes()
      requires Valid() && db.flushing.Some?
      modifies this`seen, db, db.manifest
      ensures Valid() && db.flushing.None? && fresh(db.manifest)
      ensures State() == old(State()).(seen := data) && Quiet(State())
    {
      hide Meaning, DbInvariant, Answers, Shows, Read;
      ghost var s := db.State();
      db.PublishSection();
      SameMeaning(s, Publish, old(db.manifest.sizeOf));
      AnswersStill(s, db.State(), data);
      QuietShows(db.State(), data);
      seen := data;
    }

    /** With nothing popped, everything is shown. */
    lemma QuietWhenIdle()
      requires Valid() && db.flushing.None?
      ensures Quiet(State())
    {
      QuietShows(db.State(), data);
      ShowsOne(db.State(), seen, data);
    }

    // ---- single keys ----

    method Get(key: Bytes) returns (r: Option<Bytes>)
      requires Valid()
      ensures r == if closed then None else Find(seen, key)
      ensures !closed ==> (r == Find(data, key) <==> !Decides(db.State(), key))
    {
      hide Meaning, Read, Decides;
      if closed {
        return None;
      }
      r := db.Get(key);
      assert Shows(db.State(), seen);
      assert Visible(Read(db.State(), key)) == Find(seen, key);
      ShownIff(db.State(), data, seen, key);
    }

    method Put(key: Bytes, value: Bytes) returns (r: KVResult)
      requires Valid() && key != []
      modifies this`data, this`seen, this`knownKeys, this`trackedBytes, db
      ensures Valid() && db.manifest == old(db.manifest)
      ensures r.OK? <==> !closed && !IsReserved(key)
      ensures State() == if r.OK? then AfterPut(old(State()), key, value) else old(State())
    {
      hide Valid, Written, Serialized;
      if closed {
        return Fail("DBKVStore is closed");
      }
      if IsReserved(key) {
        return Fail("reserved key prefix is managed by mokv");
      }
      var previous := Get(key);
      DbPut(key, value);
      if key !in knownKeys {
        knownKeys := knownKeys + [key];
      }
      if previous.Some? {
        trackedBytes := trackedBytes - (|key| + |previous.value|);
      }
      trackedBytes := trackedBytes + (|key| + |value|);
      SaveIndex();
      return OK;
    }

    /** The last statement under the metadata lock in Put and Delete. */
    method SaveIndex()
      requires Valid()
      modifies this`data, this`seen, db
      ensures Valid() && db.manifest == old(db.manifest)
      ensures data == Written(old(data), META_KEY, Serialized(knownKeys))
      ensures seen == Written(old(seen), META_KEY, Serialized(knownKeys))
    {
      hide Written, Serialized;
      var payload := SerializeKeys(knownKeys);
      DbPut(META_KEY, payload);
    }

    method Delete(key: Bytes) returns (r: KVResult)
      requires Valid() && key != []
      modifies this`data, this`seen, this`knownKeys, this`trackedBytes, db
      ensures Valid() && db.manifest == old(db.manifest)
      ensures r.OK? <==> !closed && !IsReserved(key)
      ensures State() == if r.OK? then AfterDelete(old(State()), key) else old(State())
      ensures r.OK? && old(Indexed(State())) ==>
                && Indexed(State())
                && (Live(State()) == old(Live(State())) - {key} <==> (key in old(data) ==> key in old(seen)))
    {
      hide Serialized, Erased, Live, Indexed;
      if closed {
        return Fail("DBKVStore is closed");
      }
      if IsReserved(key) {
        return Fail("reserved key prefix is managed by mokv");
      }
      ghost var s := State();
      var previous := Get(key);
      if Indexed(s) { DeleteLiveIff(s, key); }
      if previous.None? {
        return OK;
      }
      DbPut(key, TOMBSTONE);
      knownKeys := EraseKey(knownKeys, key);
      trackedBytes := trackedBytes - (|key| + |previous.value|);
      SaveIndex();
      return OK;
    }

    // ---- listing ----

    /** A scan of the index. */
    method ListKeysByPrefix(prefix: Bytes) returns (keys: seq<Bytes>)
      ensures keys == Listing(State(), prefix)
    {
      keys := [];
      for i := 0 to |knownKeys|
        invariant keys + WithPrefix(knownKeys[i..], prefix) == WithPrefix(knownKeys, prefix)
      {
        assert knownKeys[i..][1..] == knownKeys[i + 1..];
        if prefix == [] || prefix <= knownKeys[i] {
          keys := keys + [knownKeys[i]];
        }
      }
      assert keys == WithPrefix(knownKeys, prefix);
      keys := SortKeys(keys);
    }

    method ListEntriesByPrefix(prefix: Bytes) returns (entries: seq<Entry>)
      requires Valid()
      ensures entries == if closed then [] else EntriesOf(Listing(State(), prefix), seen)
    {
      hide Valid, Listing;
      entries := [];
      if closed {
        return;
      }
      var keys := ListKeysByPrefix(prefix);
      for i := 0 to |keys|
        invariant entries + EntriesOf(keys[i..], seen) == EntriesOf(keys, seen)
      {
        assert keys[i..][1..] == keys[i + 1..];
        var value := Get(keys[i]);
        if value.Some? {
          entries := entries + [Entry(keys[i], value.value)];
        }
      }
    }

    // ---- batches ----

    method Batch(entries: seq<Entry>) returns (r: KVResult)
      requires Valid() && forall i :: 0 <= i < |entries| ==> entries[i].key != []
      modifies this`data, this`seen, this`knownKeys, this`trackedBytes, db
      ensures Valid() && db.manifest == old(db.manifest)
      ensures r.OK? <==> entries == [] || (!closed && forall i :: 0 <= i < |entries| ==> !IsReserved(entries[i].key))
      ensures State() == if closed then old(State()) else AfterBatch(old(State()), entries)
    {
      hide Valid, IsReserved, AfterPut;
      for i := 0 to |entries|
        invariant Valid() && db.manifest == old(db.manifest)
        invariant i > 0 ==> !closed
        invariant forall j :: 0 <= j < i ==> !IsReserved(entries[j].key)
        invariant closed ==> State() == old(State())
        invariant AfterBatch(State(), entries[i..]) == AfterBatch(old(State()), entries)
      {
        assert entries[i..][1..] == entries[i + 1..];
        r := Put(entries[i].key, entries[i].value);
        if r.Fail? {
          return;
        }
      }
      return OK;
    }

    method BatchDelete(keys: seq<Bytes>) returns (r: KVResult)
      requires Valid() && [] !in keys
      modifies this`data, this`seen, this`knownKeys, this`trackedBytes, db
      ensures Valid() && db.manifest == old(db.manifest)
      ensures r.OK? <==> keys == [] || (!closed && forall i :: 0 <= i < |keys| ==> !IsReserved(keys[i]))
      ensures State() == if closed then old(State()) else AfterBatchDelete(old(State()), keys)
    {
      hide Valid, IsReserved, AfterDelete;
      for i := 0 to |keys|
        invariant Valid() && db.manifest == old(db.manifest)
        invariant i > 0 ==> !closed
        invariant forall j :: 0 <= j < i ==> !IsReserved(keys[j])
        invariant closed ==> State() == old(State())
        invariant AfterBatchDelete(State(), keys[i..]) == AfterBatchDelete(old(State()), keys)
      {
        assert keys[i..][1..] == keys[i + 1..];
        assert keys[i] in keys;
        r := Delete(keys[i]);
        if r.Fail? {
          return;
        }
      }
      return OK;
    }

    /** Clear deletes every known key in turn. */
    method Clear() returns (r: KVResult)
      requires Valid() && [] !in knownKeys
      modifies this`data, this`seen, this`knownKeys, this`trackedBytes, db
      ensures Valid() && db.manifest == old(db.manifest)
      ensures State() == if closed then old(State()) else AfterBatchDelete(old(State()), old(knownKeys))
      ensures !closed && old(Agrees(State())) ==>
                && r.OK? && Indexed(State())
                && (knownKeys == [] <==> old(AllShown(State()))) && (Live(State()) == map[] <==> knownKeys == [])
                && trackedBytes == TotalBytes(old(knownKeys), old(data)) - TotalBytes(old(knownKeys), old(seen))
    {
      hide Valid, AfterBatchDelete, Live, TotalBytes, IsReserved;
      ghost var s := State();
      var keys := knownKeys;
      r := BatchDelete(keys);
      if !closed && Agrees(s) {
        ClearEmptiesIff(s);
        assert forall i :: 0 <= i < |keys| ==> keys[i] in keys;
      }
    }

    method Size() returns (n: nat)
      ensures n == |knownKeys|
    {
      n := |knownKeys|;
    }

    // ---- closing ----

    /** Close destroys the database object, which saves everything it holds. */
    method Close() returns (file: array<char>)
      requires Valid()
      requires db.manifest.version + |db.flushQueue| + 2 < Words.U64_LIMIT
      requires db.sstId + 2 * (|db.flushQueue| + 2) < ID_LIMIT
      modifies this`closed, this`seen, this`knownKeys, this`trackedBytes, db, db.manifest
      ensures Valid() && closed && knownKeys == [] && trackedBytes == 0 && data == old(data)
      ensures !old(closed) ==>
                && db.State() == DbState([], None, [], None, db.manifest.levels, db.sstId)
                && Storable(db.manifest.version, db.manifest.levels)
                && file[..] == Image(db.manifest.version, db.manifest.levels)
    {
      hide Meaning, DbInvariant, Answers, Image, Storable;
      if closed {
        file := new char[0];
      } else {
        ghost var s := db.State();
        file := db.Close();
        AnswersStill(s, db.State(), data);
        QuietShows(db.State(), data);
        seen := data;
      }
      closed, knownKeys, trackedBytes := true, [], 0;
    }
  }

  lemma SameAnswers(s: DbState, t: DbState, data: map<Bytes, Bytes>)
    requires DbInvariant(s) && t == s.(sstId := t.sstId) && DbInvariant(t) && Answers(s, data)
    ensures Answers(t, data)
  {
    forall k: Bytes ensures Visible(Meaning(t, k)) == Find(data, k) {
      assert Visible(Meaning(s, k)) == Find(data, k);
    }
  }

  lemma ReopenIgnores(s: KvState, t: KvState)
    requires s.data == t.data
    ensures AfterReopen(s) == AfterReopen(t)
  {
  }

  lemma {:induction false} ErasedSkips(known: seq<Bytes>, key: Bytes, n: nat)
    requires n <= |known| && key !in known[..n]
    ensures Erased(known, key) == known[..n] + Erased(known[n..], key)
  {
    if n > 0 {
      assert known[..n] == [known[0]] + known[1..][..n - 1] && known[1..][n - 1..] == known[n..];
      ErasedSkips(known[1..], key, n - 1);
    }
  }

  method EraseKey(known: seq<Bytes>, key: Bytes) returns (r: seq<Bytes>)
    ensures r == Erased(known, key)
  {
    var i := 0;
    while i < |known| && known[i] != key
      invariant 0 <= i <= |known| && key !in known[..i]
    {
      i := i + 1;
    }
    ErasedSkips(known, key, i);
    if i < |known| {
      assert known[i..][1..] == known[i + 1..];
      r := known[..i] + known[i + 1..];
    } else {
      r := known;
    }
  }
}
