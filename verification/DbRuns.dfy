/** Safety over whole runs: what readers that race with the writer and the
    flusher can return. */
module DbRuns {
  import opened ByteOrder
  import opened Runs
  import opened Levels
  import opened Cascade
  import opened DbModel

  ghost predicate StepOk(trace: seq<DbState>, steps: seq<Step>, sizeOf: seq<Entry> -> nat, i: nat)
    requires |trace| == |steps| + 1 && i < |steps|
  {
    && Permitted(steps[i])
    && Enabled(trace[i], steps[i])
    && trace[i + 1] == After(trace[i], steps[i], sizeOf)
  }

  /** A database that was just opened: nothing in memory. */
  ghost predicate Opened(s: DbState) {
    DbInvariant(s) && s.active == [] && s.pending.None? && s.queue == [] && s.flushing.None?
  }

  /** A run: the states and the steps between them. */
  ghost predicate IsRun(trace: seq<DbState>, steps: seq<Step>, sizeOf: seq<Entry> -> nat) {
    && |trace| == |steps| + 1
    && Opened(trace[0])
    && forall i: nat :: i < |steps| ==> StepOk(trace, steps, sizeOf, i)
  }

  /** Every state of every run meets the invariant. */
  lemma {:induction false} RunInvariant(trace: seq<DbState>, steps: seq<Step>, sizeOf: seq<Entry> -> nat, i: nat)
    requires IsRun(trace, steps, sizeOf) && i < |trace|
    ensures DbInvariant(trace[i])
  {
    if i > 0 {
      RunInvariant(trace, steps, sizeOf, i - 1);
      RunStep(trace, steps, sizeOf, i - 1);
    }
  }

  lemma RunStep(trace: seq<DbState>, steps: seq<Step>, sizeOf: seq<Entry> -> nat, i: nat)
    requires |trace| == |steps| + 1 && i < |steps| && StepOk(trace, steps, sizeOf, i) && DbInvariant(trace[i])
    ensures DbInvariant(trace[i + 1])
  {
    StepKeepsInvariant(trace[i], steps[i], sizeOf);
  }

  /** How often each kind of step was taken before time i. */
  datatype Counts = Counts(swaps: nat, enqueues: nat, pops: nat, publishes: nat)

  function Counted(c: Counts, step: Step): Counts {
    match step
    case Swap => c.(swaps := c.swaps + 1)
    case Enqueue => c.(enqueues := c.enqueues + 1)
    case Pop => c.(pops := c.pops + 1)
    case Publish => c.(publishes := c.publishes + 1)
    case _ => c
  }

  function Count(steps: seq<Step>, i: nat): Counts
    requires i <= |steps|
  {
    if i == 0 then Counts(0, 0, 0, 0) else Counted(Count(steps, i - 1), steps[i - 1])
  }

  /** All tables swapped out before time i, oldest first. */
  ghost function Retired(trace: seq<DbState>, steps: seq<Step>, i: nat): (log: seq<Table>)
    requires |trace| == |steps| + 1 && i <= |steps|
    ensures |log| == Count(steps, i).swaps
  {
    if i == 0 then []
    else Retired(trace, steps, i - 1) + if steps[i - 1].Swap? then [trace[i - 1].active] else []
  }

  /** The places of a state are consecutive stretches of the log of retired
      tables: published, then flushing, then queued, then pending. */
  ghost predicate Placed(s: DbState, log: seq<Table>, c: Counts) {
    && |log| == c.swaps
    && c.publishes <= c.pops <= c.publishes + 1 && c.pops <= c.enqueues <= c.swaps <= c.enqueues + 1
    && s.flushing == (if c.pops == c.publishes + 1 then Some(log[c.publishes]) else None)
    && s.queue == log[c.pops..c.enqueues]
    && s.pending == (if c.swaps == c.enqueues + 1 then Some(log[c.enqueues]) else None)
  }

  lemma PlacedStep(s: DbState, log: seq<Table>, c: Counts, step: Step, sizeOf: seq<Entry> -> nat)
    requires Placed(s, log, c) && Enabled(s, step)
    ensures Placed(After(s, step, sizeOf), if step.Swap? then log + [s.active] else log, Counted(c, step))
  {
    hide Flushed, Upsert;
    match step
    case Swap => SliceKept(log, s.active, c.pops, c.enqueues);
    case Enqueue => SliceSnoc(log, c.pops, c.enqueues);
    case Pop => SliceTail(log, c.pops, c.enqueues);
    case _ =>
  }

  lemma SliceKept(log: seq<Table>, t: Table, a: nat, b: nat)
    requires a <= b <= |log|
    ensures (log + [t])[a..b] == log[a..b]
  {
  }

  lemma SliceSnoc(log: seq<Table>, a: nat, b: nat)
    requires a <= b < |log|
    ensures log[a..b + 1] == log[a..b] + [log[b]]
  {
  }

  lemma SliceTail(log: seq<Table>, a: nat, b: nat)
    requires a < b <= |log|
    ensures log[a..b][1..] == log[a + 1..b]
  {
  }

  lemma {:induction false} RunPlaced(trace: seq<DbState>, steps: seq<Step>, sizeOf: seq<Entry> -> nat, i: nat)
    requires IsRun(trace, steps, sizeOf) && i <= |steps|
    ensures Placed(trace[i], Retired(trace, steps, i), Count(steps, i))
  {
    if i > 0 {
      RunPlaced(trace, steps, sizeOf, i - 1);
      assert StepOk(trace, steps, sizeOf, i - 1);
      PlacedStep(trace[i - 1], Retired(trace, steps, i - 1), Count(steps, i - 1), steps[i - 1], sizeOf);
      assert Retired(trace, steps, i - 1) + [] == Retired(trace, steps, i - 1);
    }
  }

  /** The tree answers for a list of published tables over a starting answer. */
  ghost predicate TreeHolds(levels: seq<seq<Sst>>, published: seq<Table>, base: Option<Bytes>, key: Bytes) {
    LevelsWellFormed(levels) && TreeAnswer(levels, 0, key) == OrElse(Latest(published, key), base)
  }

  ghost function Base(trace: seq<DbState>, key: Bytes): Option<Bytes>
    requires trace != [] && Opened(trace[0])
  {
    TreeAnswer(trace[0].levels, 0, key)
  }

  lemma TreePublished(s: DbState, log: seq<Table>, p: nat, sizeOf: seq<Entry> -> nat, base: Option<Bytes>, key: Bytes)
    requires DbInvariant(s) && p < |log| && s.flushing == Some(log[p])
    requires TreeHolds(s.levels, log[..p], base, key)
    ensures Enabled(s, Publish) && TreeHolds(After(s, Publish, sizeOf).levels, log[..p + 1], base, key)
  {
    hide Cascaded, Lookup, NoEmptyKey;
    PublishMeaning(s, sizeOf, key);
    assert log[..p + 1] == log[..p] + [log[p]];
    LatestSnoc(log[..p], log[p], key);
  }

  lemma TreeUntouched(s: DbState, step: Step, sizeOf: seq<Entry> -> nat)
    requires Enabled(s, step) && !step.Publish?
    ensures After(s, step, sizeOf).levels == s.levels
  {
  }

  lemma {:induction false} RunTree(trace: seq<DbState>, steps: seq<Step>, sizeOf: seq<Entry> -> nat, i: nat, key: Bytes)
    requires IsRun(trace, steps, sizeOf) && i <= |steps|
    ensures Count(steps, i).publishes <= Count(steps, i).swaps
    ensures TreeHolds(trace[i].levels, Retired(trace, steps, i)[..Count(steps, i).publishes], Base(trace, key), key)
  {
    hide DbInvariant, TreeHolds, StepOk, Base, Lookup, Latest;
    if i == 0 {
      NothingPublished(trace, key);
    } else {
      RunTree(trace, steps, sizeOf, i - 1, key);
      PublishedPrefix(trace, steps, sizeOf, i - 1);
      TreeStep(trace, steps, sizeOf, i - 1, Retired(trace, steps, i - 1),
               Count(steps, i - 1).publishes, Base(trace, key), key);
    }
  }

  lemma NothingPublished(trace: seq<DbState>, key: Bytes)
    requires trace != [] && Opened(trace[0])
    ensures TreeHolds(trace[0].levels, [][..0], Base(trace, key), key)
  {
    assert Latest([], key) == None;
  }

  lemma PublishedPrefix(trace: seq<DbState>, steps: seq<Step>, sizeOf: seq<Entry> -> nat, i: nat)
    requires IsRun(trace, steps, sizeOf) && i < |steps|
    ensures
      var log, p := Retired(trace, steps, i), Count(steps, i).publishes;
      && p <= |log|
      && (steps[i].Publish? ==> p < |log| && trace[i].flushing == Some(log[p]))
      && Count(steps, i + 1).publishes == (if steps[i].Publish? then p + 1 else p) <= Count(steps, i + 1).swaps
      && Retired(trace, steps, i + 1)[..Count(steps, i + 1).publishes]
           == if steps[i].Publish? then log[..p + 1] else log[..p]
  {
    RunPlaced(trace, steps, sizeOf, i);
    assert StepOk(trace, steps, sizeOf, i);
  }

  lemma TreeStep(trace: seq<DbState>, steps: seq<Step>, sizeOf: seq<Entry> -> nat, i: nat,
                 log: seq<Table>, p: nat, base: Option<Bytes>, key: Bytes)
    requires IsRun(trace, steps, sizeOf) && i < |steps| && p <= |log|
    requires steps[i].Publish? ==> p < |log| && trace[i].flushing == Some(log[p])
    requires TreeHolds(trace[i].levels, log[..p], base, key)
    ensures TreeHolds(trace[i + 1].levels, if steps[i].Publish? then log[..p + 1] else log[..p], base, key)
  {
    assert StepOk(trace, steps, sizeOf, i);
    if steps[i].Publish? {
      RunInvariant(trace, steps, sizeOf, i);
      TreePublished(trace[i], log, p, sizeOf, base, key);
    } else {
      TreeUntouched(trace[i], steps[i], sizeOf);
    }
  }

  /** So the meaning of a state is the active table over the whole log. */
  lemma RunMeaning(trace: seq<DbState>, steps: seq<Step>, sizeOf: seq<Entry> -> nat, i: nat, key: Bytes)
    requires IsRun(trace, steps, sizeOf) && i <= |steps|
    ensures LevelsWellFormed(trace[i].levels)
    ensures Meaning(trace[i], key)
         == OrElse(Lookup(trace[i].active, key), OrElse(Latest(Retired(trace, steps, i), key), Base(trace, key)))
  {
    RunTree(trace, steps, sizeOf, i, key);
    RunPlaced(trace, steps, sizeOf, i);
    var c := Count(steps, i);
    LogInFour(Retired(trace, steps, i), c.publishes, c.pops, c.enqueues, key);
  }

  lemma LogInFour(log: seq<Table>, p: nat, q: nat, e: nat, key: Bytes)
    requires p <= q <= p + 1 && q <= e <= |log| <= e + 1
    ensures Latest(log, key)
         == OrElse(if |log| == e + 1 then Lookup(log[e], key) else None,
            OrElse(Latest(log[q..e], key),
            OrElse(if q == p + 1 then Lookup(log[p], key) else None, Latest(log[..p], key))))
  {
    if |log| == e + 1 {
      assert log == log[..e] + [log[e]];
      LatestSnoc(log[..e], log[e], key);
    } else {
      assert log == log[..e];
    }
    assert log[..e] == log[..q] + log[q..e];
    LatestConcat(log[..q], log[q..e], key);
    if q == p + 1 {
      assert log[..q] == log[..p] + [log[p]];
      LatestSnoc(log[..p], log[p], key);
    }
  }

  // ---- time ----

  ghost predicate NotAfter(c: Counts, d: Counts) {
    c.swaps <= d.swaps && c.enqueues <= d.enqueues && c.pops <= d.pops && c.publishes <= d.publishes
  }

  lemma {:induction false} LogGrows(trace: seq<DbState>, steps: seq<Step>, i: nat, j: nat)
    requires |trace| == |steps| + 1 && i <= j <= |steps|
    ensures NotAfter(Count(steps, i), Count(steps, j))
    ensures Retired(trace, steps, i) == Retired(trace, steps, j)[..Count(steps, i).swaps]
    ensures Count(steps, i).enqueues == Count(steps, j).enqueues ==> forall t :: i <= t < j ==> !steps[t].Enqueue?
    ensures Count(steps, i).publishes == Count(steps, j).publishes ==> forall t :: i <= t < j ==> !steps[t].Publish?
  {
    if i < j {
      LogGrows(trace, steps, i, j - 1);
    }
  }

  /** The key really had this answer at some instant of the interval. */
  ghost predicate WasReal(trace: seq<DbState>, from: nat, to: nat, key: Bytes, r: Option<Bytes>)
    requires from <= to < |trace|
  {
    exists t :: from <= t <= to && LevelsWellFormed(trace[t].levels) && Meaning(trace[t], key) == r
  }

  /** A table retired between two moments held the key's real value at the
      moment it was swapped out. */
  lemma {:induction false} RetiredWasReal(trace: seq<DbState>, steps: seq<Step>, sizeOf: seq<Entry> -> nat,
                                          i: nat, j: nat, n: nat, key: Bytes)
    requires IsRun(trace, steps, sizeOf) && i <= j <= |steps|
    requires Count(steps, i).swaps <= n < Count(steps, j).swaps
    requires Lookup(Retired(trace, steps, j)[n], key).Some?
    ensures WasReal(trace, i, j, key, Lookup(Retired(trace, steps, j)[n], key))
    decreases j
  {
    assert i < j;
    var log := Retired(trace, steps, j - 1);
    if n < Count(steps, j - 1).swaps {
      assert Retired(trace, steps, j)[n] == log[n];
      RetiredWasReal(trace, steps, sizeOf, i, j - 1, n, key);
      var t :| i <= t <= j - 1 && LevelsWellFormed(trace[t].levels) && Meaning(trace[t], key) == Lookup(log[n], key);
      assert i <= t <= j && LevelsWellFormed(trace[t].levels) && Meaning(trace[t], key) == Lookup(log[n], key);
    } else {
      assert steps[j - 1].Swap? && Retired(trace, steps, j)[n] == trace[j - 1].active;
      RunMeaning(trace, steps, sizeOf, j - 1, key);
      assert Meaning(trace[j - 1], key) == Lookup(trace[j - 1].active, key);
    }
  }

  // ---- the two gaps ----

  /** What the second and third section answer. */
  ghost function Seen(trace: seq<DbState>, t2: nat, t3: nat, key: Bytes): Option<Bytes>
    requires t2 < |trace| && t3 < |trace| && LevelsWellFormed(trace[t3].levels)
  {
    OrElse(Latest(trace[t2].queue, key), TreeAnswer(trace[t3].levels, 0, key))
  }

  /** What lies below the pending table at one instant: the queue, the popped
      table if it will be published in time, and the tree. */
  ghost function Below(s: DbState, published: bool, key: Bytes): Option<Bytes>
    requires LevelsWellFormed(s.levels)
  {
    OrElse(Latest(s.queue, key),
    OrElse(if published then Slot(s.flushing, key) else None, TreeAnswer(s.levels, 0, key)))
  }

  /** The first section misses the key; the table pending since before that
      section is still not enqueued at the second and knows the key; the queue
      answers, or the table is not published by the third section either; and
      what lies below it is something else. */
  ghost predicate PendingGap(trace: seq<DbState>, steps: seq<Step>, t1: nat, t2: nat, t3: nat, key: Bytes)
    requires |trace| == |steps| + 1 && t1 <= t2 <= t3 <= |steps|
  {
    && Lookup(trace[t1].active, key).None?
    && Count(steps, t2).enqueues < Count(steps, t1).swaps
    && Slot(trace[t2].pending, key).Some?
    && (Latest(trace[t2].queue, key).Some? || Count(steps, t3).publishes <= Count(steps, t2).enqueues)
    && LevelsWellFormed(trace[t2].levels)
    && Slot(trace[t2].pending, key) != Below(trace[t2], Count(steps, t2).publishes < Count(steps, t3).publishes, key)
  }

  /** The first section misses the key; no table pending since before it knows
      the key, and neither does the queue; the table popped at the second section
      left the active slot before the first, knows the key and is not published by
      the third; and the tree of the second section says something else. */
  ghost predicate FlushGap(trace: seq<DbState>, steps: seq<Step>, t1: nat, t2: nat, t3: nat, key: Bytes)
    requires |trace| == |steps| + 1 && t1 <= t2 <= t3 <= |steps|
  {
    && Lookup(trace[t1].active, key).None?
    && !(Count(steps, t2).enqueues < Count(steps, t1).swaps && Slot(trace[t2].pending, key).Some?)
    && Latest(trace[t2].queue, key).None?
    && Count(steps, t2).publishes < Count(steps, t1).swaps && Slot(trace[t2].flushing, key).Some?
    && Count(steps, t3).publishes == Count(steps, t2).publishes
    && LevelsWellFormed(trace[t2].levels)
    && Slot(trace[t2].flushing, key) != TreeAnswer(trace[t2].levels, 0, key)
  }

  // ---- lists of tables ----

  lemma {:induction false} LatestKnows(tables: seq<Table>, key: Bytes) returns (j: nat)
    requires Latest(tables, key).Some?
    ensures j < |tables| && Latest(tables, key) == Lookup(tables[j], key)
    ensures forall m :: j < m < |tables| ==> Lookup(tables[m], key).None?
  {
    j := |tables| - 1;
    if Lookup(tables[j], key).None? {
      j := LatestKnows(tables[..|tables| - 1], key);
    }
  }

  lemma {:induction false} LatestIs(tables: seq<Table>, key: Bytes, j: nat)
    requires j < |tables| && Lookup(tables[j], key).Some?
    requires forall m :: j < m < |tables| ==> Lookup(tables[m], key).None?
    ensures Latest(tables, key) == Lookup(tables[j], key)
  {
    if j < |tables| - 1 {
      LatestIs(tables[..|tables| - 1], key, j);
    }
  }

  /** Cutting off a tail that does not know the key changes nothing. */
  lemma {:induction false} LatestCut(tables: seq<Table>, n: nat, key: Bytes)
    requires n <= |tables| && forall m :: n <= m < |tables| ==> Lookup(tables[m], key).None?
    ensures Latest(tables, key) == Latest(tables[..n], key)
  {
    if n < |tables| {
      assert tables[..|tables| - 1][..n] == tables[..n];
      LatestCut(tables[..|tables| - 1], n, key);
    } else {
      assert tables[..n] == tables;
    }
  }

  lemma {:induction false} LatestNone(tables: seq<Table>, key: Bytes)
    ensures Latest(tables, key).None? <==> forall m :: 0 <= m < |tables| ==> Lookup(tables[m], key).None?
  {
    if tables != [] {
      LatestNone(tables[..|tables| - 1], key);
      assert tables == tables[..|tables| - 1] + [tables[|tables| - 1]];
    }
  }

  ghost predicate Silent(log: seq<Table>, a: nat, b: nat, key: Bytes)
    requires b <= |log|
  {
    forall m :: a <= m < b ==> Lookup(log[m], key).None?
  }

  lemma CutTo(log: seq<Table>, a: nat, b: nat, key: Bytes)
    requires a <= b <= |log| && Silent(log, a, b, key)
    ensures Latest(log[..b], key) == Latest(log[..a], key)
  {
    hide Lookup;
    LatestCut(log[..b], a, key);
    assert log[..b][..a] == log[..a];
  }

  lemma NewestAt(log: seq<Table>, j: nat, b: nat, key: Bytes)
    requires j < b <= |log| && Lookup(log[j], key).Some? && Silent(log, j + 1, b, key)
    ensures Latest(log[..b], key) == Lookup(log[j], key)
  {
    hide Lookup;
    LatestIs(log[..b], key, j);
  }

  /** A tree that holds everything below a bound d, when nothing from d up to n1
      knows the key: a table retired later answers, or what the first n1 say. */
  lemma TreeSince(log: seq<Table>, n1: nat, d: nat, p: nat, key: Bytes) returns (newer: Option<nat>)
    requires d <= n1 <= |log| && d <= p <= |log| && Silent(log, d, n1, key)
    ensures newer.Some? ==> n1 <= newer.value < |log| && Lookup(log[newer.value], key).Some?
                            && Latest(log[..p], key) == Lookup(log[newer.value], key)
    ensures newer.None? ==> Latest(log[..p], key) == Latest(log[..n1], key)
  {
    hide Lookup;
    CutTo(log, d, n1, key);
    if Silent(log, n1, p, key) {
      CutTo(log, d, p, key);
      return None;
    }
    var m :| n1 <= m < p && Lookup(log[m], key).Some?;
    LatestNone(log[..p], key);
    assert log[..p][m] == log[m];
    var j := LatestKnows(log[..p], key);
    assert m <= j;
    return Some(j);
  }

  /** The gaps in terms of the log: e is the place of the pending table, p2 of
      the popped one. */
  ghost predicate LogPendingGap(log: seq<Table>, n1: nat, q: nat, e: nat, p: nat, key: Bytes, r: Option<Bytes>)
    requires q <= e && n1 <= |log| && e <= |log|
  {
    && e < n1 && Lookup(log[e], key).Some?
    && (Latest(log[q..e], key).Some? || p <= e) && Lookup(log[e], key) != r
  }

  ghost predicate LogFlushGap(log: seq<Table>, n1: nat, q: nat, e: nat, p2: nat, p: nat, key: Bytes, r: Option<Bytes>)
    requires q <= e && n1 <= |log| && e <= |log|
  {
    && !(e < n1 && Lookup(log[e], key).Some?) && Latest(log[q..e], key).None?
    && q == p2 + 1 && p2 < n1 && Lookup(log[p2], key).Some?
    && p == p2 && Lookup(log[p2], key) != r
  }

  /** The places at the second section, and the tree at the third. */
  ghost predicate Places(log: seq<Table>, n1: nat, q: nat, e: nat, p2: nat, p: nat) {
    p2 <= q <= p2 + 1 && q <= e <= |log| && n1 <= e + 1 && n1 <= |log| && p2 <= p <= |log|
  }

  lemma QueueSilent(log: seq<Table>, q: nat, e: nat, key: Bytes)
    requires q <= e <= |log| && Latest(log[q..e], key).None?
    ensures Silent(log, q, e, key)
  {
    hide Lookup;
    LatestNone(log[q..e], key);
    forall m | q <= m < e ensures Lookup(log[m], key).None? {
      assert log[q..e][m - q] == log[m];
    }
  }

  /** When the queue answers. */
  lemma QueueAnswers(log: seq<Table>, n1: nat, q: nat, e: nat, p2: nat, p: nat, key: Bytes) returns (newer: Option<nat>)
    requires Places(log, n1, q, e, p2, p) && Latest(log[q..e], key).Some?
    requires !LogPendingGap(log, n1, q, e, p, key, Latest(log[q..e], key))
    ensures newer.Some? ==> n1 <= newer.value < |log| && Lookup(log[newer.value], key).Some?
                            && Latest(log[q..e], key) == Lookup(log[newer.value], key)
    ensures newer.None? ==> Latest(log[q..e], key) == Latest(log[..n1], key)
  {
    hide Lookup;
    var i := LatestKnows(log[q..e], key);
    var j := q + i;
    if n1 <= j { return Some(j); }
    if e < n1 && Lookup(log[e], key).Some? {
      NewestAt(log, e, n1, key);
    } else {
      forall m | j < m < n1 ensures Lookup(log[m], key).None? {
        if m < e { assert log[q..e][m - q] == log[m]; }
      }
      NewestAt(log, j, n1, key);
    }
    return None;
  }

  /** When it does not. */
  lemma TreeAnswers(log: seq<Table>, n1: nat, q: nat, e: nat, p2: nat, p: nat, base: Option<Bytes>, key: Bytes)
    returns (newer: Option<nat>)
    requires Places(log, n1, q, e, p2, p) && Latest(log[q..e], key).None?
    requires !LogPendingGap(log, n1, q, e, p, key, OrElse(Latest(log[..p], key), base))
    requires !LogFlushGap(log, n1, q, e, p2, p, key, OrElse(Latest(log[..p], key), base))
    ensures newer.Some? ==> n1 <= newer.value < |log| && Lookup(log[newer.value], key).Some?
                            && Latest(log[..p], key) == Lookup(log[newer.value], key)
    ensures newer.None? ==> OrElse(Latest(log[..p], key), base) == OrElse(Latest(log[..n1], key), base)
  {
    hide Lookup;
    QueueSilent(log, q, e, key);
    if e < n1 && Lookup(log[e], key).Some? {
      NewestAt(log, e, n1, key);
      if p <= e { return None; }
      newer := TreeSince(log, n1, n1, p, key);
    } else if q == p2 + 1 && p2 < n1 && Lookup(log[p2], key).Some? {
      NewestAt(log, p2, n1, key);
      if p == p2 { return None; }
      newer := TreeSince(log, n1, p2 + 1, p, key);
    } else {
      newer := TreeSince(log, n1, if p2 < n1 then p2 else n1, p, key);
    }
  }

  /** Outside the gaps a read past the active table returns what a table retired
      after the first section said, or else what the log of that section said. */
  lemma ReadOfLog(log: seq<Table>, n1: nat, q: nat, e: nat, p2: nat, p: nat, base: Option<Bytes>, key: Bytes,
                  r: Option<Bytes>)
    returns (newer: Option<nat>)
    requires Places(log, n1, q, e, p2, p) && r == OrElse(Latest(log[q..e], key), OrElse(Latest(log[..p], key), base))
    requires !LogPendingGap(log, n1, q, e, p, key, r) && !LogFlushGap(log, n1, q, e, p2, p, key, r)
    ensures newer.Some? ==> n1 <= newer.value < |log| && Lookup(log[newer.value], key).Some?
                            && r == Lookup(log[newer.value], key)
    ensures newer.None? ==> r == OrElse(Latest(log[..n1], key), base)
  {
    hide Lookup;
    if Latest(log[q..e], key).Some? {
      newer := QueueAnswers(log, n1, q, e, p2, p, key);
    } else {
      newer := TreeAnswers(log, n1, q, e, p2, p, base, key);
    }
  }

  /** In a gap it returns something else than the log of the first section said. */
  lemma GapOfLog(log: seq<Table>, n1: nat, q: nat, e: nat, p2: nat, p: nat, base: Option<Bytes>, key: Bytes,
                 r: Option<Bytes>)
    requires Places(log, n1, q, e, p2, p)
    requires LogPendingGap(log, n1, q, e, p, key, r) || LogFlushGap(log, n1, q, e, p2, p, key, r)
    ensures r != OrElse(Latest(log[..n1], key), base)
  {
    hide Lookup;
    if LogPendingGap(log, n1, q, e, p, key, r) {
      NewestAt(log, e, n1, key);
    } else {
      QueueSilent(log, q, e, key);
      NewestAt(log, p2, n1, key);
    }
  }

  // ---- the theorem ----

  lemma BelowOfLog(log: seq<Table>, q: nat, e: nat, p2: nat, p: nat, key: Bytes)
    requires p2 <= q <= p2 + 1 && q <= e <= |log| && p2 < p <= e && Latest(log[q..e], key).None?
    ensures Latest(log[..p], key)
         == OrElse(if q == p2 + 1 then Lookup(log[p2], key) else None, Latest(log[..p2], key))
  {
    hide Lookup;
    QueueSilent(log, q, e, key);
    CutTo(log, q, p, key);
    if q == p2 + 1 {
      assert log[..q] == log[..p2] + [log[p2]];
      LatestSnoc(log[..p2], log[p2], key);
    }
  }

  /** Unless the pending table was published, the last two sections see what lay
      below it at the second one. */
  lemma SeenIsBelow(trace: seq<DbState>, steps: seq<Step>, sizeOf: seq<Entry> -> nat, t2: nat, t3: nat, key: Bytes)
    requires IsRun(trace, steps, sizeOf) && t2 <= t3 <= |steps|
    requires Latest(trace[t2].queue, key).Some? || Count(steps, t3).publishes <= Count(steps, t2).enqueues
    ensures LevelsWellFormed(trace[t2].levels) && LevelsWellFormed(trace[t3].levels)
    ensures Seen(trace, t2, t3, key) == Below(trace[t2], Count(steps, t2).publishes < Count(steps, t3).publishes, key)
  {
    hide Lookup, DbInvariant, Latest, LevelsWellFormed;
    RunTree(trace, steps, sizeOf, t2, key);
    RunTree(trace, steps, sizeOf, t3, key);
    if Latest(trace[t2].queue, key).None? {
      QueueOfLog(trace, steps, sizeOf, t2, t3);
      RunPlaced(trace, steps, sizeOf, t2);
      RunPlaced(trace, steps, sizeOf, t3);
      LogGrows(trace, steps, t2, t3);
      var log, log2 := Retired(trace, steps, t3), Retired(trace, steps, t2);
      var c, p := Count(steps, t2), Count(steps, t3).publishes;
      assert log2[..c.publishes] == log[..c.publishes];
      if c.publishes < p {
        BelowOfLog(log, c.pops, c.enqueues, c.publishes, p, key);
      }
    }
  }

  /** The gaps of a run are the gaps of its log, and a read past the active table
      is answered from it. */
  lemma GapsInLog(trace: seq<DbState>, steps: seq<Step>, sizeOf: seq<Entry> -> nat, t1: nat, t2: nat, t3: nat,
                  key: Bytes)
    requires IsRun(trace, steps, sizeOf) && t1 <= t2 <= t3 <= |steps| && Lookup(trace[t1].active, key).None?
    ensures LevelsWellFormed(trace[t3].levels)
    ensures
      var log, n1 := Retired(trace, steps, t3), Count(steps, t1).swaps;
      var q, e, p2 := Count(steps, t2).pops, Count(steps, t2).enqueues, Count(steps, t2).publishes;
      var p, r := Count(steps, t3).publishes, Seen(trace, t2, t3, key);
      && Places(log, n1, q, e, p2, p)
      && r == OrElse(Latest(log[q..e], key), OrElse(Latest(log[..p], key), Base(trace, key)))
      && (PendingGap(trace, steps, t1, t2, t3, key) <==> LogPendingGap(log, n1, q, e, p, key, r))
      && (FlushGap(trace, steps, t1, t2, t3, key) <==> LogFlushGap(log, n1, q, e, p2, p, key, r))
  {
    hide Lookup, DbInvariant, Latest, TreeAnswer, LevelsWellFormed;
    QueueOfLog(trace, steps, sizeOf, t2, t3);
    RunTree(trace, steps, sizeOf, t2, key);
    RunTree(trace, steps, sizeOf, t3, key);
    RunPlaced(trace, steps, sizeOf, t2);
    if Latest(trace[t2].queue, key).Some? || Count(steps, t3).publishes <= Count(steps, t2).enqueues {
      SeenIsBelow(trace, steps, sizeOf, t2, t3, key);
    }
    LogGrows(trace, steps, t1, t2);
    LogGrows(trace, steps, t2, t3);
    var log, log2 := Retired(trace, steps, t3), Retired(trace, steps, t2);
    var c := Count(steps, t2);
    assert c.swaps == c.enqueues + 1 ==> log2[c.enqueues] == log[c.enqueues];
    assert c.pops == c.publishes + 1 ==> log2[c.publishes] == log[c.publishes];
  }

  lemma QueueOfLog(trace: seq<DbState>, steps: seq<Step>, sizeOf: seq<Entry> -> nat, t2: nat, t3: nat)
    requires IsRun(trace, steps, sizeOf) && t2 <= t3 <= |steps|
    ensures Count(steps, t2).pops <= Count(steps, t2).enqueues <= Count(steps, t3).swaps
    ensures trace[t2].queue == Retired(trace, steps, t3)[Count(steps, t2).pops..Count(steps, t2).enqueues]
  {
    RunPlaced(trace, steps, sizeOf, t2);
    LogGrows(trace, steps, t2, t3);
    var log := Retired(trace, steps, t3);
    var c := Count(steps, t2);
    assert log[..c.swaps][c.pops..c.enqueues] == log[c.pops..c.enqueues];
  }

  /** Concurrent reads: in every run, whenever Get's three sections fall, it
      returns what the key really was at some instant between the first and the
      last section, unless one of the gaps is open for the key. */
  lemma ReadsAreReal(trace: seq<DbState>, steps: seq<Step>, sizeOf: seq<Entry> -> nat, t1: nat, t2: nat, t3: nat,
                     key: Bytes)
    requires IsRun(trace, steps, sizeOf) && t1 <= t2 <= t3 <= |steps|
    requires !PendingGap(trace, steps, t1, t2, t3, key) && !FlushGap(trace, steps, t1, t2, t3, key)
    ensures LevelsWellFormed(trace[t3].levels)
    ensures WasReal(trace, t1, t3, key, ReadAcross(trace[t1], trace[t2], trace[t3], key))
  {
    hide Lookup, DbInvariant, Latest, LogPendingGap, LogFlushGap;
    RunMeaning(trace, steps, sizeOf, t1, key);
    RunMeaning(trace, steps, sizeOf, t3, key);
    if Lookup(trace[t1].active, key).Some? {
      assert Meaning(trace[t1], key) == Lookup(trace[t1].active, key);
    } else {
      GapsInLog(trace, steps, sizeOf, t1, t2, t3, key);
      LogGrows(trace, steps, t1, t3);
      var log, n1, r := Retired(trace, steps, t3), Count(steps, t1).swaps, Seen(trace, t2, t3, key);
      var c := Count(steps, t2);
      var newer := ReadOfLog(log, n1, c.pops, c.enqueues, c.publishes,
                             Count(steps, t3).publishes, Base(trace, key), key, r);
      if newer.Some? {
        RetiredWasReal(trace, steps, sizeOf, t1, t3, newer.value, key);
      } else {
        assert Meaning(trace[t1], key) == r;
      }
    }
  }

  // ---- the exact condition for a key that nobody writes meanwhile ----

  ghost predicate Unwritten(steps: seq<Step>, from: nat, to: nat, key: Bytes)
    requires to <= |steps|
  {
    forall i :: from <= i < to ==> !(steps[i].Write? && steps[i].key == key)
  }

  /** Its value does not change. */
  lemma {:induction false} UnwrittenMeaning(trace: seq<DbState>, steps: seq<Step>, sizeOf: seq<Entry> -> nat,
                                            i: nat, j: nat, key: Bytes)
    requires IsRun(trace, steps, sizeOf) && i <= j <= |steps| && Unwritten(steps, i, j, key)
    ensures LevelsWellFormed(trace[i].levels) && LevelsWellFormed(trace[j].levels)
    ensures Meaning(trace[j], key) == Meaning(trace[i], key)
    decreases j - i
  {
    hide Meaning;
    RunInvariant(trace, steps, sizeOf, j);
    if i < j {
      RunInvariant(trace, steps, sizeOf, j - 1);
      UnwrittenMeaning(trace, steps, sizeOf, i, j - 1, key);
      assert StepOk(trace, steps, sizeOf, j - 1);
      StepMeaning(trace[j - 1], steps[j - 1], sizeOf, key);
    }
  }

  /** If the first section misses it, no table retired later knows it. */
  lemma {:induction false} UnwrittenSilent(trace: seq<DbState>, steps: seq<Step>, sizeOf: seq<Entry> -> nat,
                                           i: nat, j: nat, key: Bytes)
    requires IsRun(trace, steps, sizeOf) && i <= j <= |steps| && Unwritten(steps, i, j, key)
    requires Lookup(trace[i].active, key).None?
    ensures Lookup(trace[j].active, key).None?
    ensures Silent(Retired(trace, steps, j), Count(steps, i).swaps, Count(steps, j).swaps, key)
    decreases j - i
  {
    hide Lookup, After, DbInvariant, Enabled;
    if i < j {
      UnwrittenSilent(trace, steps, sizeOf, i, j - 1, key);
      RunInvariant(trace, steps, sizeOf, j - 1);
      assert StepOk(trace, steps, sizeOf, j - 1);
      ActiveStep(trace[j - 1], steps[j - 1], sizeOf, key);
      RetiredStep(trace, steps, j - 1);
    }
  }

  lemma RetiredStep(trace: seq<DbState>, steps: seq<Step>, i: nat)
    requires |trace| == |steps| + 1 && i < |steps|
    ensures forall m :: 0 <= m < Count(steps, i).swaps ==>
              m < Count(steps, i + 1).swaps && Retired(trace, steps, i + 1)[m] == Retired(trace, steps, i)[m]
    ensures Count(steps, i + 1).swaps <= Count(steps, i).swaps + 1
    ensures Count(steps, i + 1).swaps == Count(steps, i).swaps + 1 ==>
              Retired(trace, steps, i + 1)[Count(steps, i).swaps] == trace[i].active
  {
  }

  lemma ActiveStep(s: DbState, step: Step, sizeOf: seq<Entry> -> nat, key: Bytes)
    requires DbInvariant(s) && Enabled(s, step) && Lookup(s.active, key).None? && !(step.Write? && step.key == key)
    ensures Lookup(After(s, step, sizeOf).active, key).None?
  {
    hide Flushed;
    if step.Write? {
      hide Lookup;
      UpsertLookup(s.active, step.key, step.value, key);
    }
  }

  /** What it was at any instant is what it was at the first section. */
  lemma UnwrittenRealIff(trace: seq<DbState>, steps: seq<Step>, sizeOf: seq<Entry> -> nat,
                         from: nat, to: nat, key: Bytes, r: Option<Bytes>)
    requires IsRun(trace, steps, sizeOf) && from <= to <= |steps| && Unwritten(steps, from, to, key)
    ensures LevelsWellFormed(trace[from].levels)
    ensures WasReal(trace, from, to, key, r) <==> r == Meaning(trace[from], key)
  {
    hide Meaning;
    RunInvariant(trace, steps, sizeOf, from);
    forall t | from <= t <= to
      ensures LevelsWellFormed(trace[t].levels) && Meaning(trace[t], key) == Meaning(trace[from], key)
    {
      UnwrittenMeaning(trace, steps, sizeOf, from, t, key);
    }
  }

  /** For a key that is not written between the first and the last section, Get
      returns what the key was if and only if neither gap is open. */
  lemma UnwrittenReadIff(trace: seq<DbState>, steps: seq<Step>, sizeOf: seq<Entry> -> nat, t1: nat, t2: nat, t3: nat,
                         key: Bytes)
    requires IsRun(trace, steps, sizeOf) && t1 <= t2 <= t3 <= |steps| && Unwritten(steps, t1, t3, key)
    ensures LevelsWellFormed(trace[t1].levels) && LevelsWellFormed(trace[t3].levels)
    ensures WasReal(trace, t1, t3, key, ReadAcross(trace[t1], trace[t2], trace[t3], key))
       <==> !PendingGap(trace, steps, t1, t2, t3, key) && !FlushGap(trace, steps, t1, t2, t3, key)
  {
    hide Lookup, DbInvariant, Meaning, Latest, LogPendingGap, LogFlushGap;
    RunMeaning(trace, steps, sizeOf, t1, key);
    RunMeaning(trace, steps, sizeOf, t3, key);
    var r := ReadAcross(trace[t1], trace[t2], trace[t3], key);
    UnwrittenRealIff(trace, steps, sizeOf, t1, t3, key, r);
    if PendingGap(trace, steps, t1, t2, t3, key) || FlushGap(trace, steps, t1, t2, t3, key) {
      GapMisses(trace, steps, sizeOf, t1, t2, t3, key);
    } else {
      ReadsAreReal(trace, steps, sizeOf, t1, t2, t3, key);
    }
  }

  /** In a gap a read always misses the value of the first section. */
  lemma GapMisses(trace: seq<DbState>, steps: seq<Step>, sizeOf: seq<Entry> -> nat, t1: nat, t2: nat, t3: nat,
                  key: Bytes)
    requires IsRun(trace, steps, sizeOf) && t1 <= t2 <= t3 <= |steps|
    requires PendingGap(trace, steps, t1, t2, t3, key) || FlushGap(trace, steps, t1, t2, t3, key)
    ensures LevelsWellFormed(trace[t1].levels) && LevelsWellFormed(trace[t3].levels)
    ensures ReadAcross(trace[t1], trace[t2], trace[t3], key) != Meaning(trace[t1], key)
  {
    hide Lookup, DbInvariant, Meaning, Latest, LogPendingGap, LogFlushGap;
    GapsInLog(trace, steps, sizeOf, t1, t2, t3, key);
    RunMeaning(trace, steps, sizeOf, t1, key);
    LogGrows(trace, steps, t1, t3);
    var log, n1 := Retired(trace, steps, t3), Count(steps, t1).swaps;
    var c := Count(steps, t2);
    GapOfLog(log, n1, c.pops, c.enqueues, c.publishes, Count(steps, t3).publishes, Base(trace, key), key,
             Seen(trace, t2, t3, key));
  }

  // ---- the gaps are real ----

  const T: Table := [Entry("k", "v")]

  function Opening(): seq<DbState> {
    [Fresh(), Fresh().(active := T), Fresh().(pending := Some(T)), Fresh().(queue := [T]),
     Fresh().(flushing := Some(T))]
  }

  const OPENING_STEPS := [Write("k", "v"), Swap, Enqueue, Pop]

  /** Writing one key, swapping, enqueueing and popping is a run. */
  lemma OpeningIsRun(sizeOf: seq<Entry> -> nat)
    ensures IsRun(Opening(), OPENING_STEPS, sizeOf)
  {
    FreshIsGood();
    assert Upsert([], "k", "v") == T;
    assert [] + [T] == [T] && [T][1..] == [];
    var trace := Opening();
    assert StepOk(trace, OPENING_STEPS, sizeOf, 0);
    assert StepOk(trace, OPENING_STEPS, sizeOf, 1);
    assert StepOk(trace, OPENING_STEPS, sizeOf, 2);
    assert StepOk(trace, OPENING_STEPS, sizeOf, 3);
  }

  lemma NothingThere(s: DbState)
    requires s.active == [] && s.queue == [] && s.levels == [[]]
    requires s.pending == Some(T) || (s.pending.None? && s.flushing == Some(T))
    ensures LevelsWellFormed(s.levels) && ReadAcross(s, s, s, "k") == None && Meaning(s, "k") == Some("v")
  {
    assert Lookup(T, "k") == Some("v");
    assert LevelAnswer(0, [], "k") == None;
    assert TreeAnswer(s.levels, 1, "k") == None;
  }

  /** Both gaps occur: in this run a read misses a key that was there all along,
      first while the table is pending, then while it is popped. */
  lemma GapsAreReal(sizeOf: seq<Entry> -> nat)
    ensures IsRun(Opening(), OPENING_STEPS, sizeOf)
    ensures PendingGap(Opening(), OPENING_STEPS, 2, 2, 2, "k") && FlushGap(Opening(), OPENING_STEPS, 4, 4, 4, "k")
    ensures forall t :: t == 2 || t == 4 ==>
              && LevelsWellFormed(Opening()[t].levels)
              && Meaning(Opening()[t], "k") == Some("v")
              && !WasReal(Opening(), t, t, "k", ReadAcross(Opening()[t], Opening()[t], Opening()[t], "k"))
  {
    OpeningIsRun(sizeOf);
    var trace := Opening();
    NothingThere(trace[2]);
    NothingThere(trace[4]);
    OpeningGaps();
    UnwrittenReadIff(trace, OPENING_STEPS, sizeOf, 2, 2, 2, "k");
    UnwrittenReadIff(trace, OPENING_STEPS, sizeOf, 4, 4, 4, "k");
  }

  lemma OpeningGaps()
    requires LevelsWellFormed(Opening()[2].levels) && LevelsWellFormed(Opening()[4].levels)
    requires Seen(Opening(), 2, 2, "k") == None && Seen(Opening(), 4, 4, "k") == None
    ensures PendingGap(Opening(), OPENING_STEPS, 2, 2, 2, "k") && FlushGap(Opening(), OPENING_STEPS, 4, 4, 4, "k")
  {
    assert Lookup(T, "k") == Some("v") && Lookup([], "k") == None;
    var c2 := Count(OPENING_STEPS, 2);
    assert c2 == Counts(1, 0, 0, 0);
    var c4 := Count(OPENING_STEPS, 4);
    assert c4 == Counted(Counted(c2, Enqueue), Pop);
  }
}
