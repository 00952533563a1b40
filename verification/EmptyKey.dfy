/** Why the compaction guard is there: one empty key can hide other keys. */
module EmptyKey {
  import opened ByteOrder
  import opened Runs
  import opened Merge
  import opened Levels
  import opened Compaction
  import opened Cascade
  import opened DbModel

  const LOWER_TABLE := [Entry("a", "4"), Entry("c", "5")]
  const OLDER_TABLE := [Entry("x", "1")]
  const NEWER_TABLE := [Entry("", "2"), Entry("b", "3")]

  const LOWER := Sst(2, LOWER_TABLE, 2000)
  const OLDER := Sst(3, OLDER_TABLE, 0)
  const NEWER := Sst(4, NEWER_TABLE, 2000)

  /** Level 0 holds the empty key in its newest SST, level 1 holds "a" and "c". */
  const TREE := [[OLDER, NEWER], [LOWER]]

  lemma TreeIsValid()
    ensures TreeInvariant(TREE)
  {
    assert Lt("", "b") && Lt("a", "c");
    assert WellFormed(OLDER) && WellFormed(NEWER) && WellFormed(LOWER);
    assert SortedLevel(TREE[1]);
  }

  /** The scan forgets the empty key and takes "x" for the smallest key, so the
      SST with "a" and "c" is left where it is although it overlaps. */
  lemma CutIsWrong()
    requires TreeInvariant(TREE)
    ensures CutNext(TREE[0], TREE[1]) == Cut(0, 1, [])
  {
    var ssts := TREE[0];
    assert ssts[..1] == [OLDER] && ssts[..1][..0] == [];
    assert ScanMin(ssts, []) == ScanMin([OLDER], "") == "x";
    assert Lt("b", "x");
    assert ScanMax(ssts, []) == ScanMax([OLDER], "b") == "x";
    assert Lt("c", "x");
    var cut := Cut(-1, 1, []);
    assert ScanNext([LOWER], "x", "x", 0, cut) == ScanNext([LOWER], "x", "x", 1, cut.(left := 0));
  }

  lemma AnswerBefore()
    requires TreeInvariant(TREE)
    ensures TreeAnswer(TREE, 0, "c") == Some("5")
  {
    assert Newest(NewestFirst(TREE[0]), "c") == None;
    assert Lookup(LOWER.entries, "c") == Some("5") by { LookupAt(LOWER.entries, 1); }
    assert Bisect(TREE[1], "c", 0, 1) == 1;
  }

  /** An SST that starts with the empty key wins every bisection it is last in. */
  lemma AnswerAfter(merged: Sst)
    requires WellFormed(merged) && WellFormed(LOWER) && FirstKey(merged) == ""
    ensures LevelAnswer(1, [LOWER, merged], "c") == Lookup(merged.entries, "c")
  {
    var ssts := [LOWER, merged];
    assert !Lt("c", FirstKey(ssts[0])) && !Lt("c", FirstKey(ssts[1]));
    assert Bisect(ssts, "c", 2, 2) == 2;
    assert Bisect(ssts, "c", 0, 2) == 2;
  }

  lemma MergedLacksC()
    requires TreeInvariant(TREE)
    ensures var entries := Merged(Sources(TREE[0], TREE[1]));
            Sorted(entries) && entries != [] && entries[0].key == "" && Lookup(entries, "c") == None
  {
    CutIsWrong();
    var sources := Sources(TREE[0], TREE[1]);
    var entries := Merged(sources);
    MergedAnswers(sources, "c");
    MergedNonEmpty(TREE[0], TREE[1]);
    assert sources == [NEWER.entries, OLDER.entries];
    assert Lookup(NEWER.entries, "c") == None && Lookup(OLDER.entries, "c") == None;
    assert Lookup(entries, FirstKey(TREE[0][1])).Some?;
    KeyInRange(Sst(0, entries, 0), "");
  }

  /** Compacting level 0 of this valid tree loses the key "c". */
  lemma CompactionLosesKey(sizeOf: seq<Entry> -> nat)
    ensures TreeInvariant(TREE) && !SentinelSafe(TREE[0], TREE[1])
    ensures TreeAnswer(TREE, 0, "c") == Some("5")
    ensures LevelsWellFormed(Compacted(TREE, 0, 5, sizeOf))
    ensures TreeAnswer(Compacted(TREE, 0, 5, sizeOf), 0, "c") == None
  {
    TreeIsValid();
    AnswerBefore();
    CutIsWrong();
    MergedLacksC();
    CompactedWellFormed(TREE, 0, 5, sizeOf);
    var entries := Merged(Sources(TREE[0], TREE[1]));
    var merged := Sst(5, entries, sizeOf(entries));
    var levels := Compacted(TREE, 0, 5, sizeOf);
    assert NextLevel(TREE[0], TREE[1], 5, sizeOf) == [LOWER, merged];
    assert levels[0] == [] && levels[1] == [LOWER, merged];
    AnswerAfter(merged);
    assert TreeAnswer(levels, 1, "c") == None;
    Unsafe();
  }

  lemma Unsafe()
    requires TreeInvariant(TREE)
    ensures !SentinelSafe(TREE[0], TREE[1])
  {
    var ssts := TREE[0];
    assert ssts[..1] == [OLDER];
    assert ScanMin(ssts, []) == ScanMin([OLDER], "") == "x";
    assert FirstKey(ssts[1]) == [] && Lt(LastKey(TREE[1][0]), "x");
  }

  // ---- a run that gets there ----

  /** File sizes for which one entry is small and more overfill level 0. */
  function FileSize(entries: seq<Entry>): nat {
    if |entries| <= 1 then 0 else 2000
  }

  /** The state after some steps, if each can be taken. */
  function Play(s: DbState, steps: seq<Step>): Option<DbState>
    decreases |steps|
  {
    if steps == [] then Some(s)
    else if Enabled(s, steps[0]) then Play(After(s, steps[0], FileSize), steps[1..])
    else None
  }

  lemma {:induction false} PlayConcat(s: DbState, a: seq<Step>, b: seq<Step>, t: DbState)
    requires Play(s, a) == Some(t)
    ensures Play(s, a + b) == Play(t, b)
    decreases |a|
  {
    hide After;
    if a == [] {
      assert a + b == b;
    } else {
      assert (a + b)[0] == a[0] && (a + b)[1..] == a[1..] + b;
      PlayConcat(After(s, a[0], FileSize), a[1..], b, t);
    }
  }

  const FLUSH := [Swap, Enqueue, Pop, Publish]

  function Holding(levels: seq<seq<Sst>>, sstId: nat, active: Table): DbState {
    DbState(active, None, [], None, levels, sstId)
  }

  /** Rotating and flushing the active table. */
  lemma PlayFlush(levels: seq<seq<Sst>>, sstId: nat, t: Table)
    requires LevelsWellFormed(levels) && levels != [] && Flushable(t)
    ensures Play(Holding(levels, sstId, t), FLUSH)
         == Some(Published(Holding(levels, sstId, []).(flushing := Some(t)), FileSize))
  {
    hide Published;
    var s0 := Holding(levels, sstId, t);
    var s1 := s0.(active := [], pending := Some(t));
    var s2 := s1.(pending := None, queue := [t]);
    var s3 := s2.(queue := [], flushing := Some(t));
    assert [] + [t] == [t] && [t][1..] == [];
    assert FLUSH[1..][1..] == [Pop, Publish] && FLUSH[1..][1..][1..] == [Publish] && [Publish][1..] == [];
    assert Play(s0, FLUSH) == Play(s1, FLUSH[1..]);
    assert Play(s1, FLUSH[1..]) == Play(s2, [Pop, Publish]);
    assert Play(s2, [Pop, Publish]) == Play(s3, [Publish]);
    assert Play(s3, [Publish]) == Play(After(s3, Publish, FileSize), []);
  }

  /** Merging a single table gives that table. */
  lemma MergedOne(t: seq<Entry>)
    requires Sorted(t)
    ensures Merged([t]) == t
  {
    forall k ensures Lookup(Merged([t]), k) == Lookup(t, k) {
      MergedAnswers([t], k);
      assert Newest([t], k) == if Lookup(t, k).Some? then Lookup(t, k) else Newest([t][1..], k);
    }
    MergedAnswers([t], []);
    RunExtensionality(Merged([t]), t);
  }

  lemma TablesSorted()
    ensures Flushable(LOWER_TABLE) && Flushable(OLDER_TABLE) && Flushable(NEWER_TABLE)
  {
    assert Lt("", "b") && Lt("a", "c");
  }

  lemma TwoSizes(a: Sst, b: Sst)
    ensures LevelSize([a, b]) == a.fileSize + b.fileSize
  {
    LevelSizeOne(a);
    LevelSizeOne(b);
    LevelSizeConcat([a], [b]);
  }

  /** A level of one SST over an empty level: the SST moves down under a new number. */
  lemma MovesDown(sst: Sst, id: nat)
    requires WellFormed(sst)
    ensures NextLevel([sst], [], id, FileSize) == [Sst(id, sst.entries, FileSize(sst.entries))]
  {
    hide ScanMin, ScanMax, Merged;
    assert CutNext([sst], []) == Cut(-1, 0, []);
    assert NewestFirst([sst]) == [sst.entries];
    assert Sources([sst], []) == [sst.entries];
    MergedOne(sst.entries);
  }

  /** The first flush overfills level 0 and goes to level 1. */
  lemma FirstFlush()
    ensures LevelsWellFormed([[]]) && WellFormed(Sst(1, LOWER_TABLE, 2000))
    ensures OverLimit([[Sst(1, LOWER_TABLE, 2000)]], 0)
    ensures Flushed([[]], Sst(1, LOWER_TABLE, 2000), 2, FileSize) == [[], [LOWER]]
  {
    hide NextLevel, LevelSize;
    TablesSorted();
    var sst := Sst(1, LOWER_TABLE, 2000);
    MovesDown(sst, 2);
    LevelSizeOne(sst);
    LevelSizeOne(LOWER);
    var inserted := [[sst]];
    assert [] + [sst] == [sst];
    assert [[]][0 := [] + [sst]] == inserted;
    assert Compacted(inserted, 0, 2, FileSize) == [[], [LOWER]];
    assert !OverLimit([[], [LOWER]], 1);
  }

  /** The second stays in level 0. */
  lemma SecondFlush()
    ensures LevelsWellFormed([[], [LOWER]]) && WellFormed(OLDER) && !OverLimit([[OLDER], [LOWER]], 0)
    ensures Flushed([[], [LOWER]], OLDER, 4, FileSize) == [[OLDER], [LOWER]]
  {
    hide LevelSize;
    TablesSorted();
    LevelSizeOne(OLDER);
    assert [] + [OLDER] == [OLDER];
    assert [[], [LOWER]][0 := [] + [OLDER]] == [[OLDER], [LOWER]];
  }

  /** The third, which brings the empty key, overfills level 0 again. */
  lemma ThirdFlush()
    ensures LevelsWellFormed([[OLDER], [LOWER]]) && WellFormed(NEWER) && OverLimit(TREE, 0) && LevelsWellFormed(TREE)
    ensures Flushed([[OLDER], [LOWER]], NEWER, 5, FileSize) == Compacted(TREE, 0, 5, FileSize)
  {
    hide LevelSize, Merged, Sources;
    TreeIsValid();
    assert [OLDER] + [NEWER] == [OLDER, NEWER];
    assert [[OLDER], [LOWER]][0 := [OLDER] + [NEWER]] == TREE;
    TwoSizes(OLDER, NEWER);
    CompactedWellFormed(TREE, 0, 5, FileSize);
    CutIsWrong();
    var levels := Compacted(TREE, 0, 5, FileSize);
    var entries := Merged(Sources(TREE[0], TREE[1]));
    var merged := Sst(5, entries, FileSize(entries));
    assert levels[1] == [LOWER, merged];
    TwoSizes(LOWER, merged);
    assert !OverLimit(levels, 1);
  }

  const FIRST := [Write("a", "4"), Write("c", "5")] + FLUSH
  const SECOND := [Write("x", "1")] + FLUSH
  const THIRD := [Write("", "2"), Write("b", "3")] + FLUSH

  lemma PlayTwoWrites(levels: seq<seq<Sst>>, sstId: nat, a: Entry, b: Entry)
    requires Lt(a.key, b.key)
    ensures Play(Holding(levels, sstId, []), [Write(a.key, a.value), Write(b.key, b.value)])
         == Some(Holding(levels, sstId, [a, b]))
  {
    var w := [Write(a.key, a.value), Write(b.key, b.value)];
    assert Upsert([], a.key, a.value) == [a];
    assert Upsert([a], b.key, b.value) == [a, b] by {
      LtIrreflexive(a.key);
      assert Position([a], b.key) == 1;
      assert [a][..1] + [b] + [a][1..] == [a, b];
    }
    assert w[1..][1..] == [];
    assert Play(Holding(levels, sstId, []), w) == Play(Holding(levels, sstId, [a]), w[1..]);
    assert Play(Holding(levels, sstId, [a]), w[1..]) == Play(Holding(levels, sstId, [a, b]), []);
  }

  lemma PlayFirst()
    ensures Play(Fresh(), FIRST) == Some(Holding([[], [LOWER]], 2, []))
  {
    hide Flushed;
    TablesSorted();
    FirstFlush();
    PlayTwoWrites([[]], 0, LOWER_TABLE[0], LOWER_TABLE[1]);
    PlayConcat(Fresh(), [Write("a", "4"), Write("c", "5")], FLUSH, Holding([[]], 0, LOWER_TABLE));
    PlayFlush([[]], 0, LOWER_TABLE);
    assert [] + [Sst(1, LOWER_TABLE, 2000)] == [Sst(1, LOWER_TABLE, 2000)];
    assert [[]][0 := [] + [Sst(1, LOWER_TABLE, 2000)]] == [[Sst(1, LOWER_TABLE, 2000)]];
  }

  lemma PlaySecond()
    ensures Play(Holding([[], [LOWER]], 2, []), SECOND) == Some(Holding([[OLDER], [LOWER]], 3, []))
  {
    hide Flushed;
    TablesSorted();
    SecondFlush();
    var s := Holding([[], [LOWER]], 2, []);
    assert Upsert([], "x", "1") == OLDER_TABLE;
    assert Play(s, [Write("x", "1")]) == Play(s.(active := OLDER_TABLE), [Write("x", "1")][1..]);
    PlayConcat(s, [Write("x", "1")], FLUSH, s.(active := OLDER_TABLE));
    PlayFlush([[], [LOWER]], 2, OLDER_TABLE);
    assert [] + [OLDER] == [OLDER];
    assert [[], [LOWER]][0 := [] + [OLDER]] == [[OLDER], [LOWER]];
  }

  lemma PlayThird()
    requires LevelsWellFormed(TREE)
    ensures Play(Holding([[OLDER], [LOWER]], 3, []), THIRD) == Some(Holding(Compacted(TREE, 0, 5, FileSize), 5, []))
  {
    hide Flushed, Compacted;
    TablesSorted();
    ThirdFlush();
    assert Lt("", "b");
    PlayTwoWrites([[OLDER], [LOWER]], 3, NEWER_TABLE[0], NEWER_TABLE[1]);
    PlayConcat(Holding([[OLDER], [LOWER]], 3, []), [Write("", "2"), Write("b", "3")], FLUSH,
               Holding([[OLDER], [LOWER]], 3, NEWER_TABLE));
    PlayFlush([[OLDER], [LOWER]], 3, NEWER_TABLE);
    assert [OLDER] + [NEWER] == [OLDER, NEWER];
    assert [[OLDER], [LOWER]][0 := [OLDER] + [NEWER]] == TREE;
  }

  /** Seventeen steps from a fresh database: "c" is written, found after the
      second flush, and gone after the third, although only "" and "b" were
      written in between. */
  lemma RunLosesKey()
    ensures var before := Play(Fresh(), FIRST + SECOND);
            var after := Play(Fresh(), FIRST + SECOND + THIRD);
            && before.Some? && LevelsWellFormed(before.value.levels) && Meaning(before.value, "c") == Some("5")
            && after.Some? && LevelsWellFormed(after.value.levels) && Meaning(after.value, "c") == None
  {
    hide Play, FIRST, SECOND, THIRD, Compacted, TreeAnswer;
    TreeIsValid();
    PlayFirst();
    PlaySecond();
    PlayThird();
    var s1, s2 := Holding([[], [LOWER]], 2, []), Holding([[OLDER], [LOWER]], 3, []);
    PlayConcat(Fresh(), FIRST, SECOND, s1);
    PlayConcat(Fresh(), FIRST + SECOND, THIRD, s2);
    CompactionLosesKey(FileSize);
    FoundBefore();
    NoneInEmpty("c");
  }

  lemma NoneInEmpty(key: Bytes)
    ensures Lookup([], key) == None && Latest([], key) == None
  {
  }

  lemma FoundBefore()
    ensures LevelsWellFormed([[OLDER], [LOWER]]) && TreeAnswer([[OLDER], [LOWER]], 0, "c") == Some("5")
  {
    TablesSorted();
    var levels := [[OLDER], [LOWER]];
    assert WellFormed(OLDER) && WellFormed(LOWER);
    assert Lookup(OLDER_TABLE, "c") == None;
    assert Newest(NewestFirst(levels[0]), "c") == None;
    assert Lookup(LOWER.entries, "c") == Some("5") by { LookupAt(LOWER.entries, 1); }
    assert Bisect(levels[1], "c", 0, 1) == 1;
  }
}
