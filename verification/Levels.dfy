/** SST files as values, the levels of the tree, and how they answer a key. */
module Levels {
  import opened ByteOrder
  import opened Runs
  import opened Merge

  /** An SST: its file number, its entries and the size of its file. */
  datatype Sst = Sst(id: nat, entries: seq<Entry>, fileSize: nat)

  /** SSTs are built only from non-empty sorted tables. */
  predicate WellFormed(sst: Sst) {
    sst.entries != [] && Sorted(sst.entries)
  }

  predicate AllWellFormed(ssts: seq<Sst>) {
    forall i :: 0 <= i < |ssts| ==> WellFormed(ssts[i])
  }

  function FirstKey(sst: Sst): Bytes
    requires sst.entries != []
  {
    sst.entries[0].key
  }

  function LastKey(sst: Sst): Bytes
    requires sst.entries != []
  {
    sst.entries[|sst.entries| - 1].key
  }

  /** The invariant of levels 1 and up: increasing, pairwise disjoint key ranges. */
  predicate SortedLevel(ssts: seq<Sst>) {
    && AllWellFormed(ssts)
    && forall i, j :: 0 <= i < j < |ssts| ==> Lt(LastKey(ssts[i]), FirstKey(ssts[j]))
  }

  function Tables(ssts: seq<Sst>): (ts: seq<seq<Entry>>)
    ensures |ts| == |ssts|
    ensures forall i :: 0 <= i < |ssts| ==> ts[i] == ssts[i].entries
  {
    seq(|ssts|, i requires 0 <= i < |ssts| => ssts[i].entries)
  }

  /** The tables of a level from its back to its front. */
  function NewestFirst(ssts: seq<Sst>): (ts: seq<seq<Entry>>)
    ensures |ts| == |ssts|
    ensures forall i :: 0 <= i < |ssts| ==> ts[i] == ssts[|ssts| - 1 - i].entries
  {
    seq(|ssts|, i requires 0 <= i < |ssts| => ssts[|ssts| - 1 - i].entries)
  }

  lemma KeyInRange(sst: Sst, key: Bytes)
    requires WellFormed(sst) && Lookup(sst.entries, key).Some?
    ensures Le(FirstKey(sst), key) && Le(key, LastKey(sst))
  {
    var i :| 0 <= i < |sst.entries| && sst.entries[i].key == key;
  }

  lemma FirstBelowLast(sst: Sst)
    requires WellFormed(sst)
    ensures Le(FirstKey(sst), LastKey(sst))
  {
  }

  /** In a sorted level at most one SST knows a key. */
  lemma OnlyOneKnows(ssts: seq<Sst>, key: Bytes, i: nat, j: nat)
    requires SortedLevel(ssts) && i < |ssts| && j < |ssts|
    requires Lookup(ssts[i].entries, key).Some? && Lookup(ssts[j].entries, key).Some?
    ensures i == j
  {
    KeyInRange(ssts[i], key);
    KeyInRange(ssts[j], key);
    if i < j { Chain(key, LastKey(ssts[i]), FirstKey(ssts[j])); Trichotomy(key, FirstKey(ssts[j])); }
    if j < i { Chain(key, LastKey(ssts[j]), FirstKey(ssts[i])); Trichotomy(key, FirstKey(ssts[i])); }
  }

  /** So in a sorted level it does not matter in which direction one looks. */
  lemma DirectionFree(ssts: seq<Sst>, key: Bytes)
    requires SortedLevel(ssts)
    ensures Newest(NewestFirst(ssts), key) == Newest(Tables(ssts), key)
  {
    var n := |ssts|;
    if i :| 0 <= i < n && Lookup(ssts[i].entries, key).Some? {
      forall j | 0 <= j < n && j != i ensures Lookup(ssts[j].entries, key).None? {
        if Lookup(ssts[j].entries, key).Some? { OnlyOneKnows(ssts, key, i, j); }
      }
      NewestIs(Tables(ssts), key, i);
      NewestIs(NewestFirst(ssts), key, n - 1 - i);
    } else {
      assert forall j :: 0 <= j < n ==> NewestFirst(ssts)[j] == ssts[n - 1 - j].entries;
    }
  }

  /** The bisection of a level: how many SSTs it takes to start at or below the key. */
  function Bisect(ssts: seq<Sst>, key: Bytes, l: nat, r: nat): (p: nat)
    requires l <= r <= |ssts| && AllWellFormed(ssts)
    ensures l <= p <= r
    decreases r - l
  {
    if l == r then l
    else
      var mid := (l + r) / 2;
      if Lt(key, FirstKey(ssts[mid])) then Bisect(ssts, key, l, mid) else Bisect(ssts, key, mid + 1, r)
  }

  /** What the code answers for a level, sorted or not. */
  function LevelAnswer(level: nat, ssts: seq<Sst>, key: Bytes): Option<Bytes>
    requires AllWellFormed(ssts)
  {
    if level == 0 then Newest(NewestFirst(ssts), key)
    else
      var l := Bisect(ssts, key, 0, |ssts|);
      if l > 0 then Lookup(ssts[l - 1].entries, key) else None
  }

  lemma {:induction false} BisectSplits(ssts: seq<Sst>, key: Bytes, l: nat, r: nat)
    requires SortedLevel(ssts) && l <= r <= |ssts|
    requires forall i :: 0 <= i < l ==> !Lt(key, FirstKey(ssts[i]))
    requires forall i :: r <= i < |ssts| ==> Lt(key, FirstKey(ssts[i]))
    ensures forall i :: 0 <= i < |ssts| ==> (Lt(key, FirstKey(ssts[i])) <==> Bisect(ssts, key, l, r) <= i)
    decreases r - l
  {
    if l < r {
      var mid := (l + r) / 2;
      if Lt(key, FirstKey(ssts[mid])) {
        forall i | mid <= i < |ssts| ensures Lt(key, FirstKey(ssts[i])) {
          if i > mid { StartsAscend(ssts, mid, i); Chain(key, FirstKey(ssts[mid]), FirstKey(ssts[i])); }
        }
        BisectSplits(ssts, key, l, mid);
      } else {
        forall i | 0 <= i <= mid ensures !Lt(key, FirstKey(ssts[i])) {
          if i < mid {
            StartsAscend(ssts, i, mid);
            if Lt(key, FirstKey(ssts[i])) { Chain(key, FirstKey(ssts[i]), FirstKey(ssts[mid])); }
          }
        }
        BisectSplits(ssts, key, mid + 1, r);
      }
    }
  }

  lemma StartsAscend(ssts: seq<Sst>, i: nat, j: nat)
    requires SortedLevel(ssts) && i < j < |ssts|
    ensures Lt(FirstKey(ssts[i]), FirstKey(ssts[j]))
  {
    FirstBelowLast(ssts[i]);
    Chain(FirstKey(ssts[i]), LastKey(ssts[i]), FirstKey(ssts[j]));
  }

  lemma ElsewhereUnknown(ssts: seq<Sst>, key: Bytes, l: nat, i: nat)
    requires SortedLevel(ssts) && l <= |ssts| && i < |ssts| && i != l - 1
    requires l <= i ==> Lt(key, FirstKey(ssts[i]))
    requires l > 0 ==> !Lt(key, FirstKey(ssts[l - 1]))
    ensures Lookup(ssts[i].entries, key).None?
  {
    if Lookup(ssts[i].entries, key).Some? {
      KeyInRange(ssts[i], key);
      Trichotomy(FirstKey(ssts[i]), key);
      if i < l { Chain(key, LastKey(ssts[i]), FirstKey(ssts[l - 1])); }
    }
  }

  /** In a sorted level the bisection picks the only SST that can hold the key:
      the code's answer is the answer of all SSTs together. */
  lemma BisectionSuffices(level: nat, ssts: seq<Sst>, key: Bytes)
    requires SortedLevel(ssts)
    ensures LevelAnswer(level, ssts, key) == Newest(Tables(ssts), key)
  {
    if level == 0 {
      DirectionFree(ssts, key);
    } else {
      BisectSplits(ssts, key, 0, |ssts|);
      OnlyCandidate(ssts, key, Bisect(ssts, key, 0, |ssts|));
    }
  }

  lemma OnlyCandidate(ssts: seq<Sst>, key: Bytes, l: nat)
    requires SortedLevel(ssts) && l <= |ssts|
    requires forall i :: 0 <= i < |ssts| ==> (Lt(key, FirstKey(ssts[i])) <==> l <= i)
    ensures Newest(Tables(ssts), key) == if l > 0 then Lookup(ssts[l - 1].entries, key) else None
  {
    forall i | 0 <= i < |ssts| && i != l - 1 ensures Lookup(Tables(ssts)[i], key).None? {
      ElsewhereUnknown(ssts, key, l, i);
    }
    if l > 0 && Lookup(ssts[l - 1].entries, key).Some? {
      NewestIs(Tables(ssts), key, l - 1);
    }
  }

  /** Level::Get. Level 0 is searched from the back, the others by bisection. */
  method GetInLevel(level: nat, ssts: seq<Sst>, key: Bytes) returns (r: Option<Bytes>)
    requires AllWellFormed(ssts)
    ensures r == LevelAnswer(level, ssts, key)
    ensures SortedLevel(ssts) ==> r == Newest(Tables(ssts), key)
  {
    hide Lt, Lookup, Sorted, Newest;
    if SortedLevel(ssts) { BisectionSuffices(level, ssts, key); }
    if level == 0 {
      r := SearchFromBack(ssts, key);
    } else {
      var l := SearchStart(ssts, key);
      r := if l > 0 then Lookup(ssts[l - 1].entries, key) else None;
    }
  }

  method SearchFromBack(ssts: seq<Sst>, key: Bytes) returns (r: Option<Bytes>)
    ensures r == Newest(NewestFirst(ssts), key)
  {
    hide Lookup;
    var i := |ssts|;
    while i > 0
      invariant 0 <= i <= |ssts|
      invariant forall j :: 0 <= j < |ssts| - i ==> Lookup(NewestFirst(ssts)[j], key).None?
    {
      i := i - 1;
      r := Lookup(ssts[i].entries, key);
      if r.Some? {
        NewestIs(NewestFirst(ssts), key, |ssts| - 1 - i);
        return;
      }
    }
    return None;
  }

  /** The bisection loop. */
  method SearchStart(ssts: seq<Sst>, key: Bytes) returns (l: nat)
    requires AllWellFormed(ssts)
    ensures l == Bisect(ssts, key, 0, |ssts|)
  {
    hide Lt, Sorted;
    var h := |ssts|;
    l := 0;
    while l < h
      invariant 0 <= l <= h <= |ssts|
      invariant Bisect(ssts, key, l, h) == Bisect(ssts, key, 0, |ssts|)
    {
      var mid := (l + h) / 2;
      if Lt(key, FirstKey(ssts[mid])) {
        h := mid;
      } else {
        l := mid + 1;
      }
    }
  }

  /** Level::binary_size. */
  function LevelSize(ssts: seq<Sst>): nat {
    if ssts == [] then 0 else LevelSize(ssts[..|ssts| - 1]) + ssts[|ssts| - 1].fileSize
  }

  lemma LevelSizeOne(sst: Sst)
    ensures LevelSize([sst]) == sst.fileSize
  {
    assert [sst][..0] == [];
  }

  /** The size of a level is the sum of the sizes of its files: this and LevelSizeOne
      leave no other function. */
  lemma {:induction false} LevelSizeConcat(a: seq<Sst>, b: seq<Sst>)
    ensures LevelSize(a + b) == LevelSize(a) + LevelSize(b)
  {
    if b == [] {
      assert a + b == a;
    } else {
      var n := |b| - 1;
      assert (a + b)[..|a + b| - 1] == a + b[..n];
      LevelSizeConcat(a, b[..n]);
    }
  }

  /** The loop of Level::binary_size. */
  method LevelBytes(ssts: seq<Sst>) returns (size: nat)
    ensures size == LevelSize(ssts)
  {
    size := 0;
    for i := 0 to |ssts|
      invariant size + LevelSize(ssts[i..]) == LevelSize(ssts)
    {
      assert ssts[i..] == [ssts[i]] + ssts[i + 1..];
      LevelSizeConcat([ssts[i]], ssts[i + 1..]);
      LevelSizeOne(ssts[i]);
      size := size + ssts[i].fileSize;
    }
  }

  predicate LevelsWellFormed(levels: seq<seq<Sst>>) {
    forall i :: 0 <= i < |levels| ==> AllWellFormed(levels[i])
  }

  /** What every published manifest keeps. */
  predicate TreeInvariant(levels: seq<seq<Sst>>) {
    && levels != []
    && LevelsWellFormed(levels)
    && forall i :: 1 <= i < |levels| ==> SortedLevel(levels[i])
  }

  /** Manifest::Get: the first level, from i up, that knows the key. */
  function TreeAnswer(levels: seq<seq<Sst>>, i: nat, key: Bytes): Option<Bytes>
    requires LevelsWellFormed(levels)
    decreases |levels| - i
  {
    if i >= |levels| then None
    else if LevelAnswer(i, levels[i], key).Some? then LevelAnswer(i, levels[i], key)
    else TreeAnswer(levels, i + 1, key)
  }

  method GetInTree(levels: seq<seq<Sst>>, key: Bytes) returns (r: Option<Bytes>)
    requires LevelsWellFormed(levels)
    ensures r == TreeAnswer(levels, 0, key)
  {
    var i := 0;
    while i < |levels|
      invariant 0 <= i <= |levels|
      invariant TreeAnswer(levels, i, key) == TreeAnswer(levels, 0, key)
    {
      r := GetInLevel(i, levels[i], key);
      if r.Some? {
        return;
      }
      i := i + 1;
    }
    return None;
  }
}
