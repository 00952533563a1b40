/** The database as a transition system at the grain of its lock sections: one
    writer, one flusher, and readers that look at three places at three times. */
module DbModel {
  import opened ByteOrder
  import opened Runs
  import opened Levels
  import opened Cascade
  import opened Manifest

  type Table = seq<Entry>

  /** Everything the threads share. A table that was swapped out but not yet
      enqueued is only in pending; a table that was popped but not yet published
      is only in flushing. Readers see neither. */
  datatype DbState = DbState(
    active: Table,
    pending: Option<Table>,
    queue: seq<Table>,          // oldest first
    flushing: Option<Table>,
    levels: seq<seq<Sst>>,      // the current manifest
    sstId: nat)

  datatype Step =
    | Write(key: Bytes, value: Bytes)   // Put, first section; Delete writes a tombstone
    | Swap                              // Put, second section, and the destructor
    | Enqueue                           // Put, third section, and the destructor
    | Pop                               // the flusher takes the oldest table
    | Publish                           // the flusher installs it as an SST
    | Reopen                            // clean close, then open again

  /** A table the flusher can turn into an SST. */
  predicate Flushable(t: Table) {
    t != [] && Sorted(t)
  }

  function InsertedSst(s: DbState, sizeOf: seq<Entry> -> nat): Sst
    requires s.flushing.Some?
  {
    Sst(s.sstId + 1, s.flushing.value, sizeOf(s.flushing.value))
  }

  /** ToSST: the next number for the table, one more if a compaction follows. */
  function Published(s: DbState, sizeOf: seq<Entry> -> nat): DbState
    requires s.flushing.Some? && Flushable(s.flushing.value)
    requires LevelsWellFormed(s.levels) && s.levels != []
  {
    var sst := InsertedSst(s, sizeOf);
    var inserted := s.levels[0 := s.levels[0] + [sst]];
    s.(flushing := None,
       levels := Flushed(s.levels, sst, s.sstId + 2, sizeOf),
       sstId := if OverLimit(inserted, 0) then s.sstId + 2 else s.sstId + 1)
  }

  predicate Enabled(s: DbState, step: Step) {
    match step
    case Write(_, _) => s.pending.None?
    case Swap => s.pending.None? && s.active != []
    case Enqueue => s.pending.Some?
    case Pop => s.flushing.None? && s.queue != []
    case Publish => s.flushing.Some? && Flushable(s.flushing.value) && LevelsWellFormed(s.levels) && s.levels != []
    case Reopen => s.active == [] && s.pending.None? && s.queue == [] && s.flushing.None?
  }

  function After(s: DbState, step: Step, sizeOf: seq<Entry> -> nat): DbState
    requires Enabled(s, step)
  {
    match step
    case Write(key, value) => s.(active := Upsert(s.active, key, value))
    case Swap => s.(active := [], pending := Some(s.active))
    case Enqueue => s.(pending := None, queue := s.queue + [s.pending.value])
    case Pop => s.(flushing := Some(s.queue[0]), queue := s.queue[1..])
    case Publish => Published(s, sizeOf)
    case Reopen => s.(sstId := MaxTreeId(s.levels, 0))
  }

  // ---- the one map behind all the places ----

  /** The newest answer, where later tables are newer. */
  function Latest(tables: seq<Table>, key: Bytes): Option<Bytes> {
    if tables == [] then None
    else if Lookup(tables[|tables| - 1], key).Some? then Lookup(tables[|tables| - 1], key)
    else Latest(tables[..|tables| - 1], key)
  }

  function OrElse(a: Option<Bytes>, b: Option<Bytes>): Option<Bytes> {
    if a.Some? then a else b
  }

  function Slot(t: Option<Table>, key: Bytes): Option<Bytes> {
    if t.Some? then Lookup(t.value, key) else None
  }

  /** All places overlaid, newest first. */
  ghost function Meaning(s: DbState, key: Bytes): Option<Bytes>
    requires LevelsWellFormed(s.levels)
  {
    OrElse(Lookup(s.active, key),
    OrElse(Slot(s.pending, key),
    OrElse(Latest(s.queue, key),
    OrElse(Slot(s.flushing, key), TreeAnswer(s.levels, 0, key)))))
  }

  lemma {:induction false} LatestSnoc(tables: seq<Table>, t: Table, key: Bytes)
    ensures Latest(tables + [t], key) == OrElse(Lookup(t, key), Latest(tables, key))
  {
    assert (tables + [t])[..|tables|] == tables;
  }

  lemma {:induction false} LatestConcat(a: seq<Table>, b: seq<Table>, key: Bytes)
    ensures Latest(a + b, key) == OrElse(Latest(b, key), Latest(a, key))
  {
    if b == [] {
      assert a + b == a;
    } else {
      assert (a + b)[..|a + b| - 1] == a + b[..|b| - 1];
      LatestConcat(a, b[..|b| - 1], key);
    }
  }

  // ---- what every step keeps ----

  predicate GoodTable(t: Table) {
    Sorted(t) && (t != [] ==> t[0].key != [])
  }

  /** A table on its way to disk is never empty. */
  predicate GoodFlush(t: Table) {
    t != [] && GoodTable(t)
  }

  /** A published tree: sorted disjoint levels without an empty key, all within
      their limits, file numbers unique and at most the last one drawn. */
  ghost predicate GoodTree(levels: seq<seq<Sst>>, sstId: nat) {
    && TreeInvariant(levels) && NoEmptyKey(levels)
    && WithinLimits(levels) && |levels| <= MAX_LEVEL_SIZE + 1
    && DistinctIds(levels) && IdsUpTo(levels, sstId)
  }

  ghost predicate DbInvariant(s: DbState) {
    && GoodTable(s.active)
    && (s.pending.Some? ==> GoodFlush(s.pending.value))
    && (forall i :: 0 <= i < |s.queue| ==> GoodFlush(s.queue[i]))
    && (s.flushing.Some? ==> GoodFlush(s.flushing.value))
    && GoodTree(s.levels, s.sstId)
  }

  /** Compaction treats the empty key as "no key yet"; nobody writes it. */
  predicate Permitted(step: Step) {
    step.Write? ==> step.key != []
  }

  function Fresh(): DbState {
    DbState([], None, [], None, [[]], 0)
  }

  lemma FreshIsGood()
    ensures DbInvariant(Fresh())
  {
  }

  lemma UpsertGood(t: Table, key: Bytes, value: Bytes)
    requires GoodTable(t) && key != []
    ensures GoodTable(Upsert(t, key, value))
  {
    UpsertSorted(t, key, value);
    var p := Position(t, key);
    assert Upsert(t, key, value)[0].key == if p == 0 then key else t[0].key;
  }

  /** Every step keeps the invariant: tables in flight are non-empty and sorted,
      the tree is well formed and within its limits, and file numbers are unique
      and below the next one to be drawn. */
  lemma StepKeepsInvariant(s: DbState, step: Step, sizeOf: seq<Entry> -> nat)
    requires DbInvariant(s) && Enabled(s, step) && Permitted(step)
    ensures DbInvariant(After(s, step, sizeOf))
  {
    match step
    case Write(key, value) => UpsertGood(s.active, key, value);
    case Swap =>
    case Enqueue =>
    case Pop =>
    case Publish => PublishKeepsInvariant(s, sizeOf);
    case Reopen => MaxTreeIdBounds(s.levels, 0);
  }

  lemma PublishKeepsInvariant(s: DbState, sizeOf: seq<Entry> -> nat)
    requires DbInvariant(s) && s.flushing.Some?
    ensures LevelsWellFormed(s.levels) && s.levels != []
    ensures DbInvariant(Published(s, sizeOf))
  {
    FlushKeepsTree(s.levels, InsertedSst(s, sizeOf), s.sstId, sizeOf);
  }

  lemma FlushKeepsTree(levels: seq<seq<Sst>>, sst: Sst, sstId: nat, sizeOf: seq<Entry> -> nat)
    requires GoodTree(levels, sstId) && WellFormed(sst) && FirstKey(sst) != [] && sst.id == sstId + 1
    ensures GoodTree(Flushed(levels, sst, sstId + 2, sizeOf),
                     if OverLimit(levels[0 := levels[0] + [sst]], 0) then sstId + 2 else sstId + 1)
  {
    hide CascadeSafe;
    FlushNoEmptyKey(levels, sst, sstId + 2, sizeOf);
    FlushPreserves(levels, sst, sstId + 2, sizeOf, []);
    FlushLimits(levels, sst, sstId + 2, sizeOf);
    FlushIds(levels, sst, sstId, sizeOf);
  }

  /** Every step keeps the sizes of the files true. */
  lemma StepKeepsSizes(s: DbState, step: Step, sizeOf: seq<Entry> -> nat)
    requires DbInvariant(s) && Enabled(s, step) && SizedBy(s.levels, sizeOf)
    ensures SizedBy(After(s, step, sizeOf).levels, sizeOf)
  {
    hide SizedBy, Flushed;
    if step.Publish? { FlushSized(s.levels, InsertedSst(s, sizeOf), s.sstId + 2, sizeOf); }
  }

  /** In a good state the only thing a publish needs is a popped table. */
  lemma PublishNeverBlocks(s: DbState)
    requires DbInvariant(s)
    ensures Enabled(s, Publish) <==> s.flushing.Some?
  {
  }

  /** Nothing is lost: a write changes one key, every other step changes none. */
  lemma StepMeaning(s: DbState, step: Step, sizeOf: seq<Entry> -> nat, key: Bytes)
    requires DbInvariant(s) && Enabled(s, step) && Permitted(step)
    ensures LevelsWellFormed(After(s, step, sizeOf).levels)
    ensures Meaning(After(s, step, sizeOf), key)
         == if step.Write? && step.key == key then Some(step.value) else Meaning(s, key)
  {
    match step
    case Write(k, value) => UpsertLookup(s.active, k, value, key);
    case Swap =>
    case Enqueue => LatestSnoc(s.queue, s.pending.value, key);
    case Pop => LatestPop(s.queue, key);
    case Publish => PublishMeaning(s, sizeOf, key);
    case Reopen =>
  }

  lemma PublishMeaning(s: DbState, sizeOf: seq<Entry> -> nat, key: Bytes)
    requires TreeInvariant(s.levels) && NoEmptyKey(s.levels) && s.flushing.Some? && GoodFlush(s.flushing.value)
    ensures LevelsWellFormed(Published(s, sizeOf).levels)
    ensures TreeAnswer(Published(s, sizeOf).levels, 0, key)
         == OrElse(Slot(s.flushing, key), TreeAnswer(s.levels, 0, key))
  {
    hide Cascaded, Lookup, CascadeSafe;
    FlushNoEmptyKey(s.levels, InsertedSst(s, sizeOf), s.sstId + 2, sizeOf);
    FlushPreserves(s.levels, InsertedSst(s, sizeOf), s.sstId + 2, sizeOf, key);
  }

  lemma LatestPop(queue: seq<Table>, key: Bytes)
    requires queue != []
    ensures Latest(queue, key) == OrElse(Latest(queue[1..], key), Lookup(queue[0], key))
  {
    assert queue == [queue[0]] + queue[1..];
    LatestConcat([queue[0]], queue[1..], key);
    assert [queue[0]][..0] == [];
    assert Latest([queue[0]], key) == OrElse(Lookup(queue[0], key), Latest([], key));
  }

  // ---- what a reader sees ----

  /** detail::TombstoneValue. */
  const TOMBSTONE: Bytes := [0x1E as char] + "__mokv_deleted__" + [0x1F as char]

  function Visible(r: Option<Bytes>): Option<Bytes> {
    if r.Some? && r.value == TOMBSTONE then None else r
  }

  /** DB::Get with its three sections at three moments. */
  function ReadAcross(s1: DbState, s2: DbState, s3: DbState, key: Bytes): Option<Bytes>
    requires LevelsWellFormed(s3.levels)
  {
    OrElse(Lookup(s1.active, key), OrElse(Latest(s2.queue, key), TreeAnswer(s3.levels, 0, key)))
  }

  /** Get with nobody in between. */
  function Read(s: DbState, key: Bytes): Option<Bytes>
    requires LevelsWellFormed(s.levels)
  {
    ReadAcross(s, s, s, key)
  }

  /** A table in flight decides the key and readers see something else: the
      pending table over what queue and tree say, or else the popped table over
      what the tree says. */
  ghost predicate Hidden(s: DbState, key: Bytes)
    requires LevelsWellFormed(s.levels)
  {
    var tree := TreeAnswer(s.levels, 0, key);
    && Lookup(s.active, key).None?
    && (|| (Slot(s.pending, key).Some? && Slot(s.pending, key) != OrElse(Latest(s.queue, key), tree))
        || (Slot(s.pending, key).None? && Latest(s.queue, key).None?
            && Slot(s.flushing, key).Some? && Slot(s.flushing, key) != tree))
  }

  /** Get run at one instant equals the overlaid map exactly when no table in
      flight hides the key. */
  lemma ReadExactIff(s: DbState, key: Bytes)
    requires LevelsWellFormed(s.levels)
    ensures Read(s, key) == Meaning(s, key) <==> !Hidden(s, key)
  {
  }

  /** So with no table in flight it always does. */
  lemma QuietReadIsExact(s: DbState, key: Bytes)
    requires LevelsWellFormed(s.levels) && s.pending.None? && s.flushing.None?
    ensures Read(s, key) == Meaning(s, key)
  {
    ReadExactIff(s, key);
  }
}
