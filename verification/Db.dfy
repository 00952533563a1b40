/** The database object. Each method that holds a lock is one atomic section and
    is proved to be one step of the transition system. */
module Db {
  import opened ByteOrder
  import opened Runs
  import opened Levels
  import opened Cascade
  import opened Manifest
  import opened DbModel

  /** The block of ToSST under the manifest lock: insert, and compact if level 0
      is over its limit. */
  method NextManifest(m: ManifestVersion, sst: Sst, sstId: nat) returns (next: ManifestVersion, lastId: nat)
    requires m.Valid() && WellFormed(sst) && sst.id == sstId + 1
    modifies m`maxSstId
    ensures fresh(next) && next.sizeOf == m.sizeOf && next.version == m.version + 1
    ensures next.levels == Flushed(m.levels, sst, sstId + 2, m.sizeOf)
    ensures lastId == if OverLimit(m.levels[0 := m.levels[0] + [sst]], 0) then sstId + 2 else sstId + 1
  {
    next := m.InsertAndUpdate(sst);
    var can := next.CanDoCompaction();
    lastId := sstId + 1;
    if can {
      lastId := lastId + 1;
      next.CompactAll(lastId);
    }
  }

  lemma PublishedIs(s: DbState, sizeOf: seq<Entry> -> nat, sst: Sst, levels: seq<seq<Sst>>, lastId: nat)
    requires s.flushing.Some? && Flushable(s.flushing.value) && LevelsWellFormed(s.levels) && s.levels != []
    requires sst == Sst(s.sstId + 1, s.flushing.value, sizeOf(s.flushing.value))
    requires levels == Flushed(s.levels, sst, s.sstId + 2, sizeOf)
    requires lastId == if OverLimit(s.levels[0 := s.levels[0] + [sst]], 0) then s.sstId + 2 else s.sstId + 1
    ensures After(s, Publish, sizeOf) == s.(flushing := None, levels := levels, sstId := lastId)
  {
  }

  lemma WriteIs(s: DbState, t: DbState, key: Bytes, value: Bytes, sizeOf: seq<Entry> -> nat)
    requires DbInvariant(s) && DbInvariant(t) && key != [] && Enabled(s, DbModel.Write(key, value))
    requires t == After(s, DbModel.Write(key, value), sizeOf)
    ensures forall k: Bytes :: Meaning(t, k) == if k == key then Some(value) else Meaning(s, k)
    ensures forall k: Bytes :: Read(t, k) == if k == key then Some(value) else Read(s, k)
  {
    hide Upsert, Lookup;
    forall k: Bytes
      ensures Meaning(t, k) == if k == key then Some(value) else Meaning(s, k)
      ensures Read(t, k) == if k == key then Some(value) else Read(s, k)
    {
      StepMeaning(s, DbModel.Write(key, value), sizeOf, k);
      UpsertLookup(s.active, key, value, k);
    }
  }

  lemma RotatedIs(s: DbState, t: DbState, u: DbState, sizeOf: seq<Entry> -> nat)
    requires DbInvariant(s) && DbInvariant(t) && DbInvariant(u) && Enabled(s, Swap) && t == After(s, Swap, sizeOf)
    requires Enabled(t, Enqueue) && u == After(t, Enqueue, sizeOf)
    ensures forall k: Bytes :: Meaning(u, k) == Meaning(s, k) && Read(u, k) == Read(s, k)
  {
    hide Lookup, Latest;
    forall k: Bytes ensures Meaning(u, k) == Meaning(s, k) && Read(u, k) == Read(s, k) {
      StepMeaning(s, Swap, sizeOf, k);
      StepMeaning(t, Enqueue, sizeOf, k);
      LatestSnoc(s.queue, s.active, k);
      NothingIn(k);
    }
  }

  lemma NothingIn(key: Bytes)
    ensures Lookup([], key) == None
  {
  }

  class DB {
    var memtable: Table
    /** Held by the writer between its second and third section. */
    var pending: Option<Table>
    var flushQueue: seq<Table>
    /** Held by the flusher between popping and publishing. */
    var flushing: Option<Table>
    /** The back of manifest_queue_. */
    var manifest: ManifestVersion
    var sstId: nat
    const memtableMaxSize: nat

    ghost function State(): DbState
      reads this, manifest
    {
      DbState(memtable, pending, flushQueue, flushing, manifest.levels, sstId)
    }

    ghost predicate Valid()
      reads this, manifest
    {
      DbInvariant(State())
    }

    /** A database in an empty directory. */
    constructor (memtableMaxSize: nat, sizeOf: seq<Entry> -> nat)
      ensures Valid() && State() == Fresh() && fresh(manifest) && manifest.sizeOf == sizeOf
      ensures this.memtableMaxSize == memtableMaxSize
    {
      memtable, pending, flushQueue, flushing, sstId := [], None, [], None, 0;
      manifest := new ManifestVersion(sizeOf);
      this.memtableMaxSize := memtableMaxSize;
      new;
      FreshIsGood();
    }

    // ---- Put ----

    /** First section of Put; over says that the writer goes on to the second. */
    method WriteSection(key: Bytes, value: Bytes) returns (over: bool)
      requires Valid() && Enabled(State(), DbModel.Write(key, value)) && key != []
      modifies this`memtable
      ensures Valid() && State() == After(old(State()), DbModel.Write(key, value), manifest.sizeOf)
      ensures over <==> ByteSize(memtable) > memtableMaxSize
    {
      StepKeepsInvariant(State(), DbModel.Write(key, value), manifest.sizeOf);
      memtable := Upsert(memtable, key, value);
      over := ByteSize(memtable) > memtableMaxSize;
    }

    /** Second section of Put. */
    method SwapSection()
      requires Valid() && pending.None?
      modifies this`memtable, this`pending
      ensures Valid()
      ensures if ByteSize(old(memtable)) > memtableMaxSize
              then Enabled(old(State()), Swap) && State() == After(old(State()), Swap, manifest.sizeOf)
              else State() == old(State())
    {
      if ByteSize(memtable) > memtableMaxSize {
        StepKeepsInvariant(State(), Swap, manifest.sizeOf);
        memtable, pending := [], Some(memtable);
      }
    }

    /** Third section of Put, and of the destructor. */
    method EnqueueSection()
      requires Valid() && pending.Some?
      modifies this`pending, this`flushQueue
      ensures Valid() && State() == After(old(State()), Enqueue, manifest.sizeOf)
    {
      StepKeepsInvariant(State(), Enqueue, manifest.sizeOf);
      flushQueue := flushQueue + [pending.value];
      pending := None;
    }

    /** Put, run without interruption: the map changes at one key, and a table that
        has become too large goes to the flusher. */
    method Put(key: Bytes, value: Bytes)
      requires Valid() && pending.None? && key != []
      modifies this`memtable, this`pending, this`flushQueue
      ensures Valid() && pending.None? && ByteSize(memtable) <= memtableMaxSize
      ensures var t := Upsert(old(memtable), key, value);
              if ByteSize(t) <= memtableMaxSize then memtable == t && flushQueue == old(flushQueue)
              else memtable == [] && flushQueue == old(flushQueue) + [t]
      ensures forall k: Bytes :: Meaning(State(), k) == if k == key then Some(value) else Meaning(old(State()), k)
      ensures forall k: Bytes :: Read(State(), k) == if k == key then Some(value) else Read(old(State()), k)
    {
      hide DbInvariant, Meaning, ReadAcross, Upsert;
      ghost var s0 := State();
      var over := WriteSection(key, value);
      WriteIs(s0, State(), key, value, manifest.sizeOf);
      if over {
        Rotate();
      }
    }

    /** The second and third section of Put: a table over the limit goes to the back
        of the queue, and nothing changes for a reader. */
    method Rotate()
      requires Valid() && pending.None?
      modifies this`memtable, this`pending, this`flushQueue
      ensures Valid() && pending.None? && ByteSize(memtable) <= memtableMaxSize
      ensures if ByteSize(old(memtable)) <= memtableMaxSize
              then memtable == old(memtable) && flushQueue == old(flushQueue)
              else memtable == [] && flushQueue == old(flushQueue) + [old(memtable)]
      ensures forall k: Bytes :: Meaning(State(), k) == Meaning(old(State()), k)
      ensures forall k: Bytes :: Read(State(), k) == Read(old(State()), k)
    {
      hide DbInvariant, Meaning, ReadAcross;
      ghost var s1 := State();
      SwapSection();
      if pending.Some? {
        ghost var s2 := State();
        EnqueueSection();
        RotatedIs(s1, s2, State(), manifest.sizeOf);
      }
    }

    /** Delete writes a tombstone. */
    method Delete(key: Bytes)
      requires Valid() && pending.None? && key != []
      modifies this`memtable, this`pending, this`flushQueue
      ensures Valid() && pending.None? && ByteSize(memtable) <= memtableMaxSize
      ensures forall k: Bytes :: Visible(Meaning(State(), k))
                     == if k == key then None else Visible(Meaning(old(State()), k))
      ensures forall k: Bytes :: Visible(Read(State(), k))
                     == if k == key then None else Visible(Read(old(State()), k))
    {
      Put(key, TOMBSTONE);
    }

    // ---- the flusher ----

    method PopSection()
      requires Valid() && flushing.None? && flushQueue != []
      modifies this`flushing, this`flushQueue
      ensures Valid() && State() == After(old(State()), Pop, manifest.sizeOf)
    {
      StepKeepsInvariant(State(), Pop, manifest.sizeOf);
      flushing := Some(flushQueue[0]);
      flushQueue := flushQueue[1..];
    }

    /** ToSST: build the SST, then install the next manifest under its lock. */
    method PublishSection()
      requires Valid() && flushing.Some?
      modifies this`flushing, this`manifest, this`sstId, manifest
      ensures Valid() && fresh(manifest) && manifest.sizeOf == old(manifest.sizeOf)
      ensures manifest.version == old(manifest.version) + 1
      ensures Enabled(old(State()), Publish) && State() == After(old(State()), Publish, old(manifest.sizeOf))
    {
      ghost var s := State();
      PublishKeepsInvariant(s, manifest.sizeOf);
      var sst := Sst(sstId + 1, flushing.value, manifest.sizeOf(flushing.value));
      var next, lastId := NextManifest(manifest, sst, sstId);
      PublishedIs(s, manifest.sizeOf, sst, next.levels, lastId);
      manifest, sstId, flushing := next, lastId, None;
    }

    /** ToSSTLoop until the queue is empty: everything queued reaches the tree
        and nothing changes for a reader of the map. */
    method Drain()
      requires Valid() && flushing.None?
      modifies this`flushing, this`flushQueue, this`manifest, this`sstId, manifest
      ensures Valid() && flushQueue == [] && flushing.None? && manifest.sizeOf == old(manifest.sizeOf)
      ensures manifest == old(manifest) || fresh(manifest)
      ensures memtable == old(memtable) && pending == old(pending)
      ensures sstId <= old(sstId) + 2 * |old(flushQueue)|
      ensures manifest.version == old(manifest.version) + |old(flushQueue)|
      ensures forall k: Bytes :: Meaning(State(), k) == Meaning(old(State()), k)
    {
      ghost var s0 := State();
      while flushQueue != []
        invariant Valid() && flushing.None? && manifest.sizeOf == old(manifest.sizeOf)
        invariant manifest == old(manifest) || fresh(manifest)
        invariant memtable == old(memtable) && pending == old(pending)
        invariant sstId + 2 * |flushQueue| <= old(sstId) + 2 * |old(flushQueue)|
        invariant manifest.version + |flushQueue| == old(manifest.version) + |old(flushQueue)|
        invariant forall k :: Meaning(State(), k) == Meaning(s0, k)
        decreases |flushQueue|
      {
        ghost var s1 := State();
        PopSection();
        ghost var s2 := State();
        PublishSection();
        ghost var s3 := State();
        forall k ensures Meaning(s3, k) == Meaning(s0, k) {
          StepMeaning(s1, Pop, old(manifest.sizeOf), k);
          StepMeaning(s2, Publish, old(manifest.sizeOf), k);
        }
      }
    }

    // ---- Get ----

    method GetActive(key: Bytes) returns (r: Option<Bytes>)
      ensures r == Lookup(memtable, key)
    {
      r := Lookup(memtable, key);
    }

    /** The second section of Get: newest queued table first. */
    method GetQueued(key: Bytes) returns (r: Option<Bytes>)
      ensures r == Latest(flushQueue, key)
    {
      var i := |flushQueue|;
      assert flushQueue[..i] == flushQueue;
      while i > 0
        invariant 0 <= i <= |flushQueue|
        invariant Latest(flushQueue, key) == Latest(flushQueue[..i], key)
      {
        i := i - 1;
        r := Lookup(flushQueue[i], key);
        assert flushQueue[..i + 1][..i] == flushQueue[..i];
        if r.Some? { return; }
      }
      return None;
    }

    /** Get, run without interruption: exactly the overlaid map, with tombstones
        hidden, whenever no table is in flight. */
    method Get(key: Bytes) returns (r: Option<Bytes>)
      requires Valid()
      ensures r == Visible(Read(State(), key))
      ensures pending.None? && flushing.None? ==> r == Visible(Meaning(State(), key))
    {
      r := GetActive(key);
      if r.None? {
        r := GetQueued(key);
        if r.None? {
          r := manifest.Get(key);
        }
      }
      if r.Some? && r.value == TOMBSTONE {
        r := None;
      }
    }

    // ---- close and open ----

    /** Joining the flusher: a table it holds is published first. */
    method FinishPopped()
      requires Valid()
      modifies this`flushing, this`manifest, this`sstId, manifest
      ensures Valid() && flushing.None? && manifest.sizeOf == old(manifest.sizeOf)
      ensures manifest == old(manifest) || fresh(manifest)
      ensures memtable == old(memtable) && pending == old(pending) && flushQueue == old(flushQueue)
      ensures sstId <= old(sstId) + 2 && manifest.version <= old(manifest.version) + 1
      ensures forall k: Bytes :: Meaning(State(), k) == Meaning(old(State()), k)
    {
      if flushing.Some? {
        ghost var s := State();
        PublishSection();
        forall k ensures Meaning(State(), k) == Meaning(s, k) {
          StepMeaning(s, Publish, old(manifest.sizeOf), k);
        }
      }
    }

    /** The destructor: flush what is left, stop the flusher, save the manifest. */
    method Close() returns (file: array<char>)
      requires Valid() && pending.None?
      requires manifest.version + |flushQueue| + 2 < Words.U64_LIMIT && sstId + 2 * (|flushQueue| + 2) < ID_LIMIT
      modifies this, manifest
      ensures Valid() && State() == DbState([], None, [], None, manifest.levels, sstId)
      ensures Storable(manifest.version, manifest.levels) && file[..] == Image(manifest.version, manifest.levels)
      ensures forall k: Bytes :: Meaning(State(), k) == Meaning(old(State()), k)
    {
      ghost var s0 := State();
      if memtable != [] {
        StepKeepsInvariant(State(), Swap, manifest.sizeOf);
        memtable, pending := [], Some(memtable);
        ghost var s1 := State();
        EnqueueSection();
        forall k ensures Meaning(State(), k) == Meaning(s0, k) {
          StepMeaning(s0, Swap, manifest.sizeOf, k);
          StepMeaning(s1, Enqueue, manifest.sizeOf, k);
        }
      }
      FinishPopped();
      Drain();
      IdsStorable(manifest.version, manifest.levels, sstId);
      file := Save(manifest.version, manifest.levels);
    }

    /** Opening a directory with the manifest that Close saved and its SST files. */
    constructor Open(memtableMaxSize: nat, sizeOf: seq<Entry> -> nat, file: Bytes, files: map<nat, Sst>,
                     ghost version: nat, ghost levels: seq<seq<Sst>>, ghost lastId: nat)
      requires Storable(version, levels) && file == Image(version, levels) && OnDisk(files, levels)
      requires GoodTree(levels, lastId)
      ensures Valid() && State() == After(DbState([], None, [], None, levels, lastId), Reopen, sizeOf)
      ensures fresh(manifest) && manifest.sizeOf == sizeOf && manifest.version == version
      ensures this.memtableMaxSize == memtableMaxSize
    {
      memtable, pending, flushQueue, flushing := [], None, [], None;
      var v, ls, max := Load(file, files, version, levels);
      var m := new ManifestVersion(sizeOf);
      m.version, m.levels, m.maxSstId := v, ls, max;
      manifest, sstId := m, max;
      this.memtableMaxSize := memtableMaxSize;
      new;
      MaxTreeIdBounds(levels, 0);
    }
  }

  lemma IdsStorable(version: nat, levels: seq<seq<Sst>>, sstId: nat)
    requires GoodTree(levels, sstId) && version < Words.U64_LIMIT && sstId < ID_LIMIT
    ensures Storable(version, levels)
  {
  }
}
