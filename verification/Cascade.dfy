/** The compaction cascade that follows a flush: size limits, file numbers and
    meaning over every run. */
module Cascade {
  import opened ByteOrder
  import opened Runs
  import opened Merge
  import opened Levels
  import opened Compaction

  /** Levels that the cascade may compact. */
  const MAX_LEVEL_SIZE := 5

  /** Size limits in bytes of levels 0 to 4. */
  function Threshold(level: nat): nat
    requires level < MAX_LEVEL_SIZE
  {
    if level == 0 then 1024
    else if level == 1 then 10 * 1024 * 1024
    else if level == 2 then 100 * 1024 * 1024
    else if level == 3 then 1000 * 1024 * 1024
    else 10000 * 1024 * 1024
  }

  predicate OverLimit(levels: seq<seq<Sst>>, level: nat) {
    level < MAX_LEVEL_SIZE && level < |levels| && LevelSize(levels[level]) > Threshold(level)
  }

  /** SizeTieredCompaction(id): from level i down, stop at the first level within its limit. */
  function Cascaded(levels: seq<seq<Sst>>, i: nat, id: nat, sizeOf: seq<Entry> -> nat): (r: seq<seq<Sst>>)
    requires LevelsWellFormed(levels)
    ensures LevelsWellFormed(r)
    decreases MAX_LEVEL_SIZE - i, id
  {
    if OverLimit(levels, i) then
      CompactedWellFormed(levels, i, id, sizeOf);
      Cascaded(Compacted(levels, i, id, sizeOf), i + 1, id, sizeOf)
    else levels
  }

  /** A flush: the new SST joins level 0, then the cascade runs if level 0 is over its limit. */
  function Flushed(levels: seq<seq<Sst>>, sst: Sst, id: nat, sizeOf: seq<Entry> -> nat): (r: seq<seq<Sst>>)
    requires LevelsWellFormed(levels) && levels != [] && WellFormed(sst)
    ensures LevelsWellFormed(r)
  {
    Cascaded(levels[0 := levels[0] + [sst]], 0, id, sizeOf)
  }

  // ---- no empty keys: the compaction sentinel is then harmless ----

  predicate NoEmptyKey(levels: seq<seq<Sst>>)
    requires LevelsWellFormed(levels)
  {
    forall l, i :: 0 <= l < |levels| && 0 <= i < |levels[l]| ==> FirstKey(levels[l][i]) != []
  }

  lemma MergedNoEmptyKey(ssts: seq<Sst>, next: seq<Sst>)
    requires AllWellFormed(ssts) && ssts != [] && SortedLevel(next)
    requires forall i :: 0 <= i < |ssts| ==> FirstKey(ssts[i]) != []
    requires forall i :: 0 <= i < |next| ==> FirstKey(next[i]) != []
    ensures Merged(Sources(ssts, next)) != [] && Merged(Sources(ssts, next))[0].key != []
  {
    MergedNonEmpty(ssts, next);
    var entries := Merged(Sources(ssts, next));
    if entries[0].key == [] {
      LookupAt(entries, 0);
      MergedKeyOrigin(ssts, next, []);
      if j :| 0 <= j < |ssts| && Lookup(ssts[j].entries, []).Some? {
        KeyInRange(ssts[j], []);
      } else {
        var j :| 0 <= j < |next| && Lookup(next[j].entries, []).Some?;
        KeyInRange(next[j], []);
      }
    }
  }

  lemma CompactedNoEmptyKey(levels: seq<seq<Sst>>, level: nat, id: nat, sizeOf: seq<Entry> -> nat)
    requires TreeInvariant(levels) && level < |levels| && levels[level] != [] && NoEmptyKey(levels)
    ensures LevelsWellFormed(Compacted(levels, level, id, sizeOf))
    ensures NoEmptyKey(Compacted(levels, level, id, sizeOf))
  {
    CompactedWellFormed(levels, level, id, sizeOf);
    var ssts, next := levels[level], Below(levels, level);
    MergedNoEmptyKey(ssts, next);
    var levels': seq<seq<Sst>> := Compacted(levels, level, id, sizeOf);
    assert levels'[level + 1] == NextLevel(ssts, next, id, sizeOf);
    forall l, i | 0 <= l < |levels'| && 0 <= i < |levels'[l]| ensures FirstKey(levels'[l][i]) != [] {
      CompactedOrigin(levels, level, id, sizeOf, l, i);
    }
  }

  /** Where an SST of the compacted tree stood before; the merged one is new. */
  ghost function OldIndex(levels: seq<seq<Sst>>, level: nat, l: nat, i: nat): int
    requires LevelsWellFormed(levels) && level < |levels|
  {
    if l != level + 1 then i
    else
      var cut := CutNext(levels[level], Below(levels, level));
      if i <= cut.left then i else i - cut.left - 2 + cut.right
  }

  predicate IsMerged(levels: seq<seq<Sst>>, level: nat, l: nat, i: nat)
    requires LevelsWellFormed(levels) && level < |levels|
  {
    l == level + 1 && i == CutNext(levels[level], Below(levels, level)).left + 1
  }

  lemma CompactedOrigin(levels: seq<seq<Sst>>, level: nat, id: nat, sizeOf: seq<Entry> -> nat, l: nat, i: nat)
    requires LevelsWellFormed(levels) && level < |levels|
    requires l < |Compacted(levels, level, id, sizeOf)| && i < |Compacted(levels, level, id, sizeOf)[l]|
    ensures l != level
    ensures IsMerged(levels, level, l, i) ==>
              Compacted(levels, level, id, sizeOf)[l][i].id == id
              && Compacted(levels, level, id, sizeOf)[l][i].entries
                   == Merged(Sources(levels[level], Below(levels, level)))
    ensures !IsMerged(levels, level, l, i) ==>
              l < |levels| && 0 <= OldIndex(levels, level, l, i) < |levels[l]|
              && Compacted(levels, level, id, sizeOf)[l][i] == levels[l][OldIndex(levels, level, l, i)]
  {
    hide Merged, Sources, ScanMin, ScanMax, ScanNext, Lt, Sorted;
    var levels': seq<seq<Sst>> := Compacted(levels, level, id, sizeOf);
    assert levels'[level] == [];
    assert levels'[level + 1] == NextLevel(levels[level], Below(levels, level), id, sizeOf);
  }

  // ---- size limits ----

  /** Every level the cascade watches is within its limit. */
  predicate WithinLimits(levels: seq<seq<Sst>>) {
    forall i :: 0 <= i < MAX_LEVEL_SIZE ==> !OverLimit(levels, i)
  }

  lemma {:induction false} CascadeLimits(levels: seq<seq<Sst>>, i: nat, id: nat, sizeOf: seq<Entry> -> nat)
    requires LevelsWellFormed(levels) && i <= MAX_LEVEL_SIZE
    requires forall j :: 0 <= j < MAX_LEVEL_SIZE && j != i ==> !OverLimit(levels, j)
    requires |levels| <= MAX_LEVEL_SIZE + 1
    ensures WithinLimits(Cascaded(levels, i, id, sizeOf))
    ensures |Cascaded(levels, i, id, sizeOf)| <= MAX_LEVEL_SIZE + 1
    decreases MAX_LEVEL_SIZE - i
  {
    hide Compacted;
    if OverLimit(levels, i) {
      CompactedWellFormed(levels, i, id, sizeOf);
      CompactedLimits(levels, i, id, sizeOf);
      var levels' := Compacted(levels, i, id, sizeOf);
      CascadeLimits(levels', i + 1, id, sizeOf);
      assert Cascaded(levels, i, id, sizeOf) == Cascaded(levels', i + 1, id, sizeOf);
    }
  }

  /** A compaction empties its own level and can overfill only the next one. */
  lemma CompactedLimits(levels: seq<seq<Sst>>, i: nat, id: nat, sizeOf: seq<Entry> -> nat)
    requires LevelsWellFormed(levels) && i < MAX_LEVEL_SIZE && i < |levels| <= MAX_LEVEL_SIZE + 1
    requires forall j :: 0 <= j < MAX_LEVEL_SIZE && j != i ==> !OverLimit(levels, j)
    ensures |Compacted(levels, i, id, sizeOf)| <= MAX_LEVEL_SIZE + 1
    ensures forall j :: 0 <= j < MAX_LEVEL_SIZE && j != i + 1 ==> !OverLimit(Compacted(levels, i, id, sizeOf), j)
  {
    var levels': seq<seq<Sst>> := Compacted(levels, i, id, sizeOf);
    assert levels'[i] == [] && LevelSize(levels'[i]) == 0;
    forall j | 0 <= j < MAX_LEVEL_SIZE && j != i + 1 ensures !OverLimit(levels', j) {
      assert j != i ==> !OverLimit(levels, j);
      assert j != i && j < |levels'| ==> levels'[j] == levels[j];
    }
  }

  /** Where the cascade stops: the first level, from i up, that it leaves alone. */
  function StopsAt(levels: seq<seq<Sst>>, i: nat, id: nat, sizeOf: seq<Entry> -> nat): nat
    requires LevelsWellFormed(levels)
    decreases MAX_LEVEL_SIZE - i, id
  {
    if OverLimit(levels, i) then
      CompactedWellFormed(levels, i, id, sizeOf);
      StopsAt(Compacted(levels, i, id, sizeOf), i + 1, id, sizeOf)
    else i
  }

  /** What a compaction does to the limits of all levels but the next. */
  lemma CompactedSizes(levels: seq<seq<Sst>>, i: nat, id: nat, sizeOf: seq<Entry> -> nat)
    requires LevelsWellFormed(levels) && i < |levels|
    ensures !OverLimit(Compacted(levels, i, id, sizeOf), i)
    ensures forall j: nat :: j != i && j != i + 1 ==>
              (OverLimit(Compacted(levels, i, id, sizeOf), j) <==> OverLimit(levels, j))
  {
    hide NextLevel, Threshold;
    var levels': seq<seq<Sst>> := Compacted(levels, i, id, sizeOf);
    assert levels'[i] == [] && LevelSize(levels'[i]) == 0;
    hide LevelSize;
    forall j: nat | j != i && j != i + 1 ensures OverLimit(levels', j) <==> OverLimit(levels, j) {
      assert j < |levels'| <==> j < |levels|;
      assert j < |levels'| ==> levels'[j] == levels[j];
    }
  }

  /** Between the level it starts at and the level it stops at the cascade leaves
      everything within the limits; elsewhere it changes nothing. */
  lemma {:induction false} CascadeSizes(levels: seq<seq<Sst>>, i: nat, id: nat, sizeOf: seq<Entry> -> nat, j: nat)
    requires LevelsWellFormed(levels)
    ensures i <= StopsAt(levels, i, id, sizeOf)
    ensures OverLimit(Cascaded(levels, i, id, sizeOf), j)
       <==> !(i <= j <= StopsAt(levels, i, id, sizeOf)) && OverLimit(levels, j)
    decreases MAX_LEVEL_SIZE - i
  {
    hide Compacted;
    if OverLimit(levels, i) {
      CompactedWellFormed(levels, i, id, sizeOf);
      CompactedSizes(levels, i, id, sizeOf);
      CascadeSizes(Compacted(levels, i, id, sizeOf), i + 1, id, sizeOf, j);
    }
  }

  /** Stopping early is justified exactly when no level behind the one where the
      cascade stops was over its limit. */
  lemma EarlyStopIff(levels: seq<seq<Sst>>, id: nat, sizeOf: seq<Entry> -> nat)
    requires LevelsWellFormed(levels)
    ensures WithinLimits(Cascaded(levels, 0, id, sizeOf))
       <==> forall j :: StopsAt(levels, 0, id, sizeOf) < j < MAX_LEVEL_SIZE ==> !OverLimit(levels, j)
  {
    hide Cascaded, StopsAt, OverLimit;
    forall j: nat ensures OverLimit(Cascaded(levels, 0, id, sizeOf), j)
                     <==> j > StopsAt(levels, 0, id, sizeOf) && OverLimit(levels, j)
    {
      CascadeSizes(levels, 0, id, sizeOf, j);
    }
  }

  /** A level over its limit behind one that is not: the cascade never reaches it. */
  lemma EarlyStopCanFail(sst: Sst, id: nat, sizeOf: seq<Entry> -> nat)
    requires WellFormed(sst) && sst.fileSize > Threshold(1)
    ensures LevelsWellFormed([[], [sst]]) && !OverLimit([[], [sst]], 0)
    ensures Cascaded([[], [sst]], 0, id, sizeOf) == [[], [sst]] && !WithinLimits([[], [sst]])
  {
    var levels := [[], [sst]];
    assert LevelSize(levels[0]) == 0 && LevelSize(levels[1]) == sst.fileSize;
    assert OverLimit(levels, 1);
  }

  /** A flush leaves every watched level within its limit and never makes a
      seventh level, so stopping at the first level within its limit loses nothing. */
  lemma FlushLimits(levels: seq<seq<Sst>>, sst: Sst, id: nat, sizeOf: seq<Entry> -> nat)
    requires LevelsWellFormed(levels) && levels != [] && WellFormed(sst)
    requires WithinLimits(levels) && |levels| <= MAX_LEVEL_SIZE + 1
    ensures WithinLimits(Flushed(levels, sst, id, sizeOf))
    ensures |Flushed(levels, sst, id, sizeOf)| <= 6
    ensures var r := Flushed(levels, sst, id, sizeOf);
            && (0 < |r| ==> LevelSize(r[0]) <= 1024)
            && (1 < |r| ==> LevelSize(r[1]) <= 10 * 1024 * 1024)
            && (2 < |r| ==> LevelSize(r[2]) <= 100 * 1024 * 1024)
            && (3 < |r| ==> LevelSize(r[3]) <= 1000 * 1024 * 1024)
            && (4 < |r| ==> LevelSize(r[4]) <= 10000 * 1024 * 1024)
  {
    hide Cascaded, LevelSize;
    var inserted := levels[0 := levels[0] + [sst]];
    assert forall j :: 0 < j < |inserted| ==> inserted[j] == levels[j];
    assert forall j :: 0 < j < MAX_LEVEL_SIZE ==> (OverLimit(inserted, j) <==> OverLimit(levels, j));
    CascadeLimits(inserted, 0, id, sizeOf);
    LimitsAre(Flushed(levels, sst, id, sizeOf));
  }

  lemma LimitsAre(levels: seq<seq<Sst>>)
    requires WithinLimits(levels)
    ensures 0 < |levels| ==> LevelSize(levels[0]) <= 1024
    ensures 1 < |levels| ==> LevelSize(levels[1]) <= 10 * 1024 * 1024
    ensures 2 < |levels| ==> LevelSize(levels[2]) <= 100 * 1024 * 1024
    ensures 3 < |levels| ==> LevelSize(levels[3]) <= 1000 * 1024 * 1024
    ensures 4 < |levels| ==> LevelSize(levels[4]) <= 10000 * 1024 * 1024
  {
    hide LevelSize;
    assert !OverLimit(levels, 0) && !OverLimit(levels, 1) && !OverLimit(levels, 2) && !OverLimit(levels, 3)
           && !OverLimit(levels, 4);
  }

  // ---- file sizes ----

  /** Every file is as large as its entries make it, so the limits are about what is
      really there. */
  ghost predicate SizedBy(levels: seq<seq<Sst>>, sizeOf: seq<Entry> -> nat) {
    forall l, i :: 0 <= l < |levels| && 0 <= i < |levels[l]| ==> levels[l][i].fileSize == sizeOf(levels[l][i].entries)
  }

  lemma CompactedSized(levels: seq<seq<Sst>>, level: nat, id: nat, sizeOf: seq<Entry> -> nat)
    requires LevelsWellFormed(levels) && level < |levels| && SizedBy(levels, sizeOf)
    ensures SizedBy(Compacted(levels, level, id, sizeOf), sizeOf)
  {
    hide Merged, Sources, ScanMin, ScanMax, ScanNext, Lt, Sorted;
    var levels': seq<seq<Sst>> := Compacted(levels, level, id, sizeOf);
    assert levels'[level + 1] == NextLevel(levels[level], Below(levels, level), id, sizeOf);
    forall l, i | 0 <= l < |levels'| && 0 <= i < |levels'[l]|
      ensures levels'[l][i].fileSize == sizeOf(levels'[l][i].entries)
    {
      CompactedOrigin(levels, level, id, sizeOf, l, i);
    }
  }

  lemma {:induction false} CascadeSized(levels: seq<seq<Sst>>, i: nat, id: nat, sizeOf: seq<Entry> -> nat)
    requires LevelsWellFormed(levels) && SizedBy(levels, sizeOf)
    ensures SizedBy(Cascaded(levels, i, id, sizeOf), sizeOf)
    decreases MAX_LEVEL_SIZE - i
  {
    if OverLimit(levels, i) {
      hide Compacted, SizedBy;
      CompactedWellFormed(levels, i, id, sizeOf);
      CompactedSized(levels, i, id, sizeOf);
      CascadeSized(Compacted(levels, i, id, sizeOf), i + 1, id, sizeOf);
    }
  }

  /** A flush, with all its compactions, keeps this. */
  lemma FlushSized(levels: seq<seq<Sst>>, sst: Sst, id: nat, sizeOf: seq<Entry> -> nat)
    requires LevelsWellFormed(levels) && levels != [] && WellFormed(sst)
    requires SizedBy(levels, sizeOf) && sst.fileSize == sizeOf(sst.entries)
    ensures SizedBy(Flushed(levels, sst, id, sizeOf), sizeOf)
  {
    hide Cascaded;
    var inserted := levels[0 := levels[0] + [sst]];
    assert inserted[0] == levels[0] + [sst];
    assert forall j :: 0 < j < |inserted| ==> inserted[j] == levels[j];
    CascadeSized(inserted, 0, id, sizeOf);
  }

  // ---- meaning ----

  /** The sentinel is harmless at every compaction of the cascade. */
  predicate CascadeSafe(levels: seq<seq<Sst>>, i: nat, id: nat, sizeOf: seq<Entry> -> nat)
    requires LevelsWellFormed(levels)
    decreases MAX_LEVEL_SIZE - i, id
  {
    OverLimit(levels, i) ==>
      && SentinelSafe(levels[i], Below(levels, i))
      && (CompactedWellFormed(levels, i, id, sizeOf);
          CascadeSafe(Compacted(levels, i, id, sizeOf), i + 1, id, sizeOf))
  }

  lemma {:induction false} CascadePreserves(levels: seq<seq<Sst>>, i: nat, id: nat, sizeOf: seq<Entry> -> nat,
                                            key: Bytes)
    requires TreeInvariant(levels) && CascadeSafe(levels, i, id, sizeOf)
    ensures TreeInvariant(Cascaded(levels, i, id, sizeOf))
    ensures TreeAnswer(Cascaded(levels, i, id, sizeOf), 0, key) == TreeAnswer(levels, 0, key)
    decreases MAX_LEVEL_SIZE - i
  {
    if OverLimit(levels, i) {
      hide SentinelSafe, Compacted;
      CompactionPreservesAnswers(levels, i, id, sizeOf, key);
      CascadePreserves(Compacted(levels, i, id, sizeOf), i + 1, id, sizeOf, key);
    }
  }

  lemma NoEmptyKeySafe(levels: seq<seq<Sst>>, level: nat)
    requires LevelsWellFormed(levels) && level < |levels| && NoEmptyKey(levels)
    ensures SentinelSafe(levels[level], Below(levels, level))
  {
  }

  /** Without empty keys every cascade is safe, and makes none. */
  lemma {:induction false} CascadeNoEmptyKey(levels: seq<seq<Sst>>, i: nat, id: nat, sizeOf: seq<Entry> -> nat)
    requires TreeInvariant(levels) && NoEmptyKey(levels)
    ensures CascadeSafe(levels, i, id, sizeOf) && NoEmptyKey(Cascaded(levels, i, id, sizeOf))
    decreases MAX_LEVEL_SIZE - i
  {
    if OverLimit(levels, i) {
      hide Compacted, SentinelSafe, NoEmptyKey, Sorted;
      NoEmptyKeySafe(levels, i);
      CompactionPreservesAnswers(levels, i, id, sizeOf, []);
      CompactedNoEmptyKey(levels, i, id, sizeOf);
      CascadeNoEmptyKey(Compacted(levels, i, id, sizeOf), i + 1, id, sizeOf);
    }
  }

  lemma InsertAnswers(levels: seq<seq<Sst>>, sst: Sst, key: Bytes)
    requires TreeInvariant(levels) && WellFormed(sst)
    ensures TreeInvariant(levels[0 := levels[0] + [sst]])
    ensures TreeAnswer(levels[0 := levels[0] + [sst]], 0, key)
         == if Lookup(sst.entries, key).Some? then Lookup(sst.entries, key) else TreeAnswer(levels, 0, key)
  {
    var inserted := levels[0 := levels[0] + [sst]];
    assert forall j :: 0 < j < |inserted| ==> inserted[j] == levels[j];
    assert NewestFirst(levels[0] + [sst]) == [sst.entries] + NewestFirst(levels[0]);
    NewestConcat([sst.entries], NewestFirst(levels[0]), key);
    SkipLevels(levels, inserted, 1, key);
  }

  /** A flush changes the answers exactly by the flushed table, newest on top. */
  lemma FlushPreserves(levels: seq<seq<Sst>>, sst: Sst, id: nat, sizeOf: seq<Entry> -> nat, key: Bytes)
    requires TreeInvariant(levels) && WellFormed(sst) && CascadeSafe(levels[0 := levels[0] + [sst]], 0, id, sizeOf)
    ensures TreeInvariant(Flushed(levels, sst, id, sizeOf))
    ensures TreeAnswer(Flushed(levels, sst, id, sizeOf), 0, key)
         == if Lookup(sst.entries, key).Some? then Lookup(sst.entries, key) else TreeAnswer(levels, 0, key)
  {
    hide CascadeSafe, Cascaded;
    InsertAnswers(levels, sst, key);
    CascadePreserves(levels[0 := levels[0] + [sst]], 0, id, sizeOf, key);
  }

  lemma FlushNoEmptyKey(levels: seq<seq<Sst>>, sst: Sst, id: nat, sizeOf: seq<Entry> -> nat)
    requires TreeInvariant(levels) && NoEmptyKey(levels) && WellFormed(sst) && FirstKey(sst) != []
    ensures CascadeSafe(levels[0 := levels[0] + [sst]], 0, id, sizeOf) && NoEmptyKey(Flushed(levels, sst, id, sizeOf))
  {
    hide CascadeSafe, Cascaded;
    InsertAnswers(levels, sst, []);
    CascadeNoEmptyKey(levels[0 := levels[0] + [sst]], 0, id, sizeOf);
  }

  // ---- file numbers ----

  /** No two SSTs of a tree share a file number. */
  ghost predicate DistinctIds(levels: seq<seq<Sst>>) {
    forall l, i, m, j ::
      0 <= l < |levels| && 0 <= i < |levels[l]| && 0 <= m < |levels| && 0 <= j < |levels[m]| ==>
        levels[l][i].id == levels[m][j].id ==> l == m && i == j
  }

  ghost predicate IdsUpTo(levels: seq<seq<Sst>>, max: nat) {
    forall l, i :: 0 <= l < |levels| && 0 <= i < |levels[l]| ==> levels[l][i].id <= max
  }

  /** Only the given level may hold the file number. */
  ghost predicate IdOnlyAt(levels: seq<seq<Sst>>, id: nat, level: nat) {
    forall l, i :: 0 <= l < |levels| && 0 <= i < |levels[l]| && levels[l][i].id == id ==> l == level
  }

  /** A compaction may reuse the number of the file it is about to consume. */
  lemma CompactedIds(levels: seq<seq<Sst>>, level: nat, id: nat, sizeOf: seq<Entry> -> nat)
    requires LevelsWellFormed(levels) && level < |levels| && levels[level] != []
    requires DistinctIds(levels) && IdOnlyAt(levels, id, level) && IdsUpTo(levels, id)
    ensures DistinctIds(Compacted(levels, level, id, sizeOf))
    ensures IdOnlyAt(Compacted(levels, level, id, sizeOf), id, level + 1)
    ensures IdsUpTo(Compacted(levels, level, id, sizeOf), id)
  {
    hide Merged, Sources, ScanMin, ScanMax, ScanNext, Lt, Sorted, Compacted;
    var levels': seq<seq<Sst>> := Compacted(levels, level, id, sizeOf);
    forall l, i | 0 <= l < |levels'| && 0 <= i < |levels'[l]|
      ensures levels'[l][i].id <= id && (levels'[l][i].id == id <==> IsMerged(levels, level, l, i))
    {
      CompactedOrigin(levels, level, id, sizeOf, l, i);
    }
    forall l, i, m, j | 0 <= l < |levels'| && 0 <= i < |levels'[l]| && 0 <= m < |levels'| && 0 <= j < |levels'[m]|
                        && levels'[l][i].id == levels'[m][j].id
      ensures l == m && i == j
    {
      CompactedOrigin(levels, level, id, sizeOf, l, i);
      CompactedOrigin(levels, level, id, sizeOf, m, j);
    }
  }

  lemma {:induction false} CascadeIds(levels: seq<seq<Sst>>, i: nat, id: nat, sizeOf: seq<Entry> -> nat)
    requires LevelsWellFormed(levels)
    requires DistinctIds(levels) && IdOnlyAt(levels, id, i) && IdsUpTo(levels, id)
    ensures DistinctIds(Cascaded(levels, i, id, sizeOf)) && IdsUpTo(Cascaded(levels, i, id, sizeOf), id)
    decreases MAX_LEVEL_SIZE - i
  {
    if OverLimit(levels, i) {
      hide Compacted, DistinctIds, IdOnlyAt, IdsUpTo;
      CompactedWellFormed(levels, i, id, sizeOf);
      CompactedIds(levels, i, id, sizeOf);
      CascadeIds(Compacted(levels, i, id, sizeOf), i + 1, id, sizeOf);
    }
  }

  /** A flush draws two fresh numbers; although a cascade hands the second one to
      several outputs in turn, the published tree has no number twice. */
  lemma FlushIds(levels: seq<seq<Sst>>, sst: Sst, max: nat, sizeOf: seq<Entry> -> nat)
    requires LevelsWellFormed(levels) && levels != [] && WellFormed(sst)
    requires DistinctIds(levels) && IdsUpTo(levels, max) && sst.id == max + 1
    ensures DistinctIds(Flushed(levels, sst, max + 2, sizeOf))
    ensures IdsUpTo(Flushed(levels, sst, max + 2, sizeOf), max + 2)
    ensures !OverLimit(levels[0 := levels[0] + [sst]], 0) ==> IdsUpTo(Flushed(levels, sst, max + 2, sizeOf), max + 1)
  {
    var inserted := levels[0 := levels[0] + [sst]];
    assert inserted[0] == levels[0] + [sst];
    assert forall j :: 0 < j < |inserted| ==> inserted[j] == levels[j];
    assert forall l, i :: 0 <= l < |inserted| && 0 <= i < |inserted[l]| ==>
                            if l == 0 && i == |levels[0]| then inserted[l][i] == sst
                            else i < |levels[l]| && inserted[l][i] == levels[l][i];
    CascadeIds(inserted, 0, max + 2, sizeOf);
  }
}
