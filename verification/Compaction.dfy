/** One compaction: a whole level is merged into the level below it. */
module Compaction {
  import opened ByteOrder
  import opened Runs
  import opened Merge
  import opened Levels

  /** The smallest first key, scanned from the back; an empty key doubles as
      "nothing seen yet", exactly as in the code. */
  function ScanMin(ssts: seq<Sst>, min: Bytes): Bytes
    requires AllWellFormed(ssts)
  {
    if ssts == [] then min
    else
      var first := FirstKey(ssts[|ssts| - 1]);
      ScanMin(ssts[..|ssts| - 1], if min == [] || Lt(first, min) then first else min)
  }

  function ScanMax(ssts: seq<Sst>, max: Bytes): Bytes
    requires AllWellFormed(ssts)
  {
    if ssts == [] then max
    else
      var last := LastKey(ssts[|ssts| - 1]);
      ScanMax(ssts[..|ssts| - 1], if max == [] || Lt(max, last) then last else max)
  }

  /** How the next level is cut: everything up to left stays on the left,
      everything from right on stays on the right, the overlap is merged. */
  datatype Cut = Cut(left: int, right: nat, overlap: seq<Sst>)

  function ScanNext(next: seq<Sst>, min: Bytes, max: Bytes, i: nat, cut: Cut): (r: Cut)
    requires AllWellFormed(next) && i <= |next|
    requires -1 <= cut.left < i && cut.right == |next|
    ensures -1 <= r.left < r.right <= |next|
    decreases |next| - i
  {
    if i == |next| then cut
    else if Lt(LastKey(next[i]), min) then ScanNext(next, min, max, i + 1, cut.(left := i))
    else if Lt(max, FirstKey(next[i])) then cut.(right := i)
    else ScanNext(next, min, max, i + 1, cut.(overlap := cut.overlap + [next[i]]))
  }

  function CutNext(ssts: seq<Sst>, next: seq<Sst>): (r: Cut)
    requires AllWellFormed(ssts) && AllWellFormed(next)
    ensures -1 <= r.left < r.right <= |next|
  {
    ScanNext(next, ScanMin(ssts, []), ScanMax(ssts, []), 0, Cut(-1, |next|, []))
  }

  /** The sources of the merge, newest first. */
  function Sources(ssts: seq<Sst>, next: seq<Sst>): seq<seq<Entry>>
    requires AllWellFormed(ssts) && AllWellFormed(next)
  {
    NewestFirst(ssts) + Tables(CutNext(ssts, next).overlap)
  }

  /** The next level after the compaction. */
  function NextLevel(ssts: seq<Sst>, next: seq<Sst>, id: nat, sizeOf: seq<Entry> -> nat): seq<Sst>
    requires AllWellFormed(ssts) && AllWellFormed(next)
  {
    var cut := CutNext(ssts, next);
    var entries := Merged(Sources(ssts, next));
    next[..cut.left + 1] + [Sst(id, entries, sizeOf(entries))] + next[cut.right..]
  }

  /** The level below, which a compaction creates when it is missing. */
  function Below(levels: seq<seq<Sst>>, level: nat): seq<Sst> {
    if level + 1 < |levels| then levels[level + 1] else []
  }

  /** SizeTieredCompaction(level, id) on the whole tree. */
  function Compacted(levels: seq<seq<Sst>>, level: nat, id: nat, sizeOf: seq<Entry> -> nat): seq<seq<Sst>>
    requires LevelsWellFormed(levels) && level < |levels|
  {
    var grown := if level + 1 == |levels| then levels + [[]] else levels;
    grown[level := []][level + 1 := NextLevel(levels[level], Below(levels, level), id, sizeOf)]
  }

  // ---- the key range of the compacted level ----

  /** The empty key as a sentinel can spoil only the lower bound, and only when
      some SST starts with the empty key and another one, scanned later, does not. */
  lemma {:induction false} ScanMinBounds(ssts: seq<Sst>, min: Bytes)
    requires AllWellFormed(ssts)
    requires forall i :: 0 <= i < |ssts| ==> FirstKey(ssts[i]) != []
    ensures forall i :: 0 <= i < |ssts| ==> Le(ScanMin(ssts, min), FirstKey(ssts[i]))
    ensures min != [] ==> Le(ScanMin(ssts, min), min)
  {
    if ssts != [] {
      var n := |ssts| - 1;
      var first := FirstKey(ssts[n]);
      var min' := if min == [] || Lt(first, min) then first else min;
      ScanMinBounds(ssts[..n], min');
      Trichotomy(first, min);
      Chain(ScanMin(ssts, min), min', first);
      if min != [] { Chain(ScanMin(ssts, min), min', min); }
    }
  }

  lemma {:induction false} ScanMinIsFirst(ssts: seq<Sst>, min: Bytes)
    requires AllWellFormed(ssts)
    ensures ScanMin(ssts, min) == min || exists i :: 0 <= i < |ssts| && FirstKey(ssts[i]) == ScanMin(ssts, min)
    ensures ssts != [] && min == [] ==> exists i :: 0 <= i < |ssts| && FirstKey(ssts[i]) == ScanMin(ssts, min)
  {
    if ssts != [] {
      var n := |ssts| - 1;
      var first := FirstKey(ssts[n]);
      var min' := if min == [] || Lt(first, min) then first else min;
      ScanMinIsFirst(ssts[..n], min');
      if ScanMin(ssts, min) == min' {
        assert min' == first ==> FirstKey(ssts[n]) == ScanMin(ssts, min);
      } else {
        var i :| 0 <= i < |ssts[..n]| && FirstKey(ssts[..n][i]) == ScanMin(ssts[..n], min');
        assert ssts[i] == ssts[..n][i];
      }
    }
  }

  lemma {:induction false} ScanMaxBounds(ssts: seq<Sst>, max: Bytes)
    requires AllWellFormed(ssts)
    ensures forall i :: 0 <= i < |ssts| ==> Le(LastKey(ssts[i]), ScanMax(ssts, max))
    ensures Le(max, ScanMax(ssts, max))
  {
    if ssts != [] {
      var n := |ssts| - 1;
      var last := LastKey(ssts[n]);
      var max' := if max == [] || Lt(max, last) then last else max;
      ScanMaxBounds(ssts[..n], max');
      Trichotomy(last, max);
      Chain(last, max', ScanMax(ssts, max));
      Chain(max, max', ScanMax(ssts, max));
    }
  }

  /** What a caller can check before a compaction: the sentinel did not hide an
      empty first key, or no SST of the next level ends below the bound it left. */
  predicate SentinelSafe(ssts: seq<Sst>, next: seq<Sst>)
    requires AllWellFormed(ssts) && AllWellFormed(next)
  {
    || (forall i :: 0 <= i < |ssts| ==> FirstKey(ssts[i]) != [])
    || (forall j :: 0 <= j < |next| ==> !Lt(LastKey(next[j]), ScanMin(ssts, [])))
  }

  // ---- the cut of the next level ----

  /** Left part, overlap and right part are consecutive in a sorted level. */
  ghost predicate CutIs(next: seq<Sst>, min: Bytes, max: Bytes, cut: Cut)
    requires AllWellFormed(next)
  {
    && -1 <= cut.left < cut.right <= |next|
    && cut.overlap == next[cut.left + 1..cut.right]
    && (forall i :: 0 <= i <= cut.left ==> Lt(LastKey(next[i]), min))
    && (forall i :: cut.right <= i < |next| ==> Lt(max, FirstKey(next[i])))
    && (forall i :: cut.left < i < |next| ==> !Lt(LastKey(next[i]), min))
  }

  lemma {:induction false} ScanNextCuts(next: seq<Sst>, min: Bytes, max: Bytes, i: nat, cut: Cut)
    requires SortedLevel(next) && Le(min, max) && i <= |next|
    requires -1 <= cut.left < i && cut.right == |next|
    requires cut.overlap == next[cut.left + 1..i]
    requires forall j :: 0 <= j <= cut.left ==> Lt(LastKey(next[j]), min)
    requires forall j :: cut.left < j < i ==> !Lt(LastKey(next[j]), min)
    ensures CutIs(next, min, max, ScanNext(next, min, max, i, cut))
    decreases |next| - i
  {
    hide Lt, Sorted;
    if i < |next| {
      if Lt(LastKey(next[i]), min) {
        if cut.left < i - 1 {
          EndsAscend(next, i - 1, i);
          Chain(LastKey(next[i - 1]), LastKey(next[i]), min);
        }
        ScanNextCuts(next, min, max, i + 1, cut.(left := i));
      } else if Lt(max, FirstKey(next[i])) {
        forall j | i <= j < |next| ensures Lt(max, FirstKey(next[j])) && !Lt(LastKey(next[j]), min) {
          RightOf(next, min, max, i, j);
        }
      } else {
        ScanNextCuts(next, min, max, i + 1, cut.(overlap := cut.overlap + [next[i]]));
      }
    }
  }

  lemma RightOf(next: seq<Sst>, min: Bytes, max: Bytes, i: nat, j: nat)
    requires SortedLevel(next) && i <= j < |next| && Le(min, max) && Lt(max, FirstKey(next[i]))
    ensures Lt(max, FirstKey(next[j])) && !Lt(LastKey(next[j]), min)
  {
    hide Lt, Sorted;
    if i < j { StartsAscend(next, i, j); Chain(max, FirstKey(next[i]), FirstKey(next[j])); }
    FirstBelowLast(next[j]);
    Chain(max, FirstKey(next[j]), LastKey(next[j]));
    Chain(min, max, LastKey(next[j]));
    Trichotomy(min, LastKey(next[j]));
  }

  lemma EndsAscend(ssts: seq<Sst>, i: nat, j: nat)
    requires SortedLevel(ssts) && i < j < |ssts|
    ensures Lt(LastKey(ssts[i]), LastKey(ssts[j]))
  {
    FirstBelowLast(ssts[j]);
    Chain(LastKey(ssts[i]), FirstKey(ssts[j]), LastKey(ssts[j]));
  }

  lemma CutNextIs(ssts: seq<Sst>, next: seq<Sst>)
    requires AllWellFormed(ssts) && ssts != [] && SortedLevel(next)
    ensures CutIs(next, ScanMin(ssts, []), ScanMax(ssts, []), CutNext(ssts, next))
  {
    var min, max := ScanMin(ssts, []), ScanMax(ssts, []);
    ScanMinIsFirst(ssts, []);
    ScanMaxBounds(ssts, []);
    var i :| 0 <= i < |ssts| && FirstKey(ssts[i]) == min;
    FirstBelowLast(ssts[i]);
    Chain(min, LastKey(ssts[i]), max);
    ScanNextCuts(next, min, max, 0, Cut(-1, |next|, []));
  }

  /** Under the guard, the left part lies wholly below the compacted level and
      the right part wholly above it. */
  lemma PartsApart(ssts: seq<Sst>, next: seq<Sst>)
    requires AllWellFormed(ssts) && ssts != [] && SortedLevel(next) && SentinelSafe(ssts, next)
    ensures var cut := CutNext(ssts, next);
            && CutIs(next, ScanMin(ssts, []), ScanMax(ssts, []), cut)
            && (forall i, j :: 0 <= i <= cut.left && 0 <= j < |ssts| ==> Lt(LastKey(next[i]), FirstKey(ssts[j])))
            && (forall i, j :: cut.right <= i < |next| && 0 <= j < |ssts| ==> Lt(LastKey(ssts[j]), FirstKey(next[i])))
  {
    CutNextIs(ssts, next);
    var cut := CutNext(ssts, next);
    var min, max := ScanMin(ssts, []), ScanMax(ssts, []);
    ScanMaxBounds(ssts, []);
    forall i, j | cut.right <= i < |next| && 0 <= j < |ssts| ensures Lt(LastKey(ssts[j]), FirstKey(next[i])) {
      Chain(LastKey(ssts[j]), max, FirstKey(next[i]));
    }
    if forall i :: 0 <= i < |ssts| ==> FirstKey(ssts[i]) != [] {
      ScanMinBounds(ssts, []);
      forall i, j | 0 <= i <= cut.left && 0 <= j < |ssts| ensures Lt(LastKey(next[i]), FirstKey(ssts[j])) {
        Chain(LastKey(next[i]), min, FirstKey(ssts[j]));
      }
    }
  }

  // ---- the merged SST ----

  /** Every key of the merged SST comes from the level or from the overlap. */
  lemma MergedKeyOrigin(ssts: seq<Sst>, next: seq<Sst>, key: Bytes)
    requires AllWellFormed(ssts) && ssts != [] && SortedLevel(next)
    requires Lookup(Merged(Sources(ssts, next)), key).Some?
    ensures
      var cut := CutNext(ssts, next);
      || (exists j :: 0 <= j < |ssts| && Lookup(ssts[j].entries, key).Some?)
      || (exists j :: cut.left < j < cut.right && Lookup(next[j].entries, key).Some?)
  {
    CutNextIs(ssts, next);
    var cut := CutNext(ssts, next);
    MergedAnswers(Sources(ssts, next), key);
    SourceKnows(ssts, next, cut.left + 1, cut.right, key);
  }

  lemma SourceKnows(ssts: seq<Sst>, next: seq<Sst>, l: nat, r: nat, key: Bytes)
    requires l <= r <= |next|
    requires Newest(NewestFirst(ssts) + Tables(next[l..r]), key).Some?
    ensures || (exists j :: 0 <= j < |ssts| && Lookup(ssts[j].entries, key).Some?)
            || (exists j :: l <= j < r && Lookup(next[j].entries, key).Some?)
  {
    hide Lookup;
    var sources := NewestFirst(ssts) + Tables(next[l..r]);
    var i :| 0 <= i < |sources| && Lookup(sources[i], key).Some?;
    if i < |ssts| {
      assert sources[i] == ssts[|ssts| - 1 - i].entries;
    } else {
      assert sources[i] == next[l + i - |ssts|].entries;
    }
  }

  /** A key between the left and the right part of the next level. */
  ghost predicate Between(ssts: seq<Sst>, next: seq<Sst>, key: Bytes)
    requires AllWellFormed(ssts) && AllWellFormed(next)
  {
    var cut := CutNext(ssts, next);
    && (forall i :: 0 <= i <= cut.left ==> Lt(LastKey(next[i]), key))
    && (forall i :: cut.right <= i < |next| ==> Lt(key, FirstKey(next[i])))
  }

  lemma MergedKeyBetween(ssts: seq<Sst>, next: seq<Sst>, key: Bytes)
    requires AllWellFormed(ssts) && ssts != [] && SortedLevel(next) && SentinelSafe(ssts, next)
    requires Lookup(Merged(Sources(ssts, next)), key).Some?
    ensures Between(ssts, next, key)
  {
    hide Lt, Lookup, Merged, Sources, ScanMin, ScanMax, ScanNext, SentinelSafe;
    PartsApart(ssts, next);
    MergedKeyOrigin(ssts, next, key);
    var cut := CutNext(ssts, next);
    if j :| 0 <= j < |ssts| && Lookup(ssts[j].entries, key).Some? {
      KeyInRange(ssts[j], key);
      forall i | 0 <= i <= cut.left ensures Lt(LastKey(next[i]), key)
        { Chain(LastKey(next[i]), FirstKey(ssts[j]), key); }
      forall i | cut.right <= i < |next| ensures Lt(key, FirstKey(next[i]))
        { Chain(key, LastKey(ssts[j]), FirstKey(next[i])); }
    } else {
      var j :| cut.left < j < cut.right && Lookup(next[j].entries, key).Some?;
      KeyInRange(next[j], key);
      forall i | 0 <= i <= cut.left ensures Lt(LastKey(next[i]), key)
        { Chain(LastKey(next[i]), FirstKey(next[j]), key); }
      forall i | cut.right <= i < |next| ensures Lt(key, FirstKey(next[i]))
        { Chain(key, LastKey(next[j]), FirstKey(next[i])); }
    }
  }

  lemma MergedNonEmpty(ssts: seq<Sst>, next: seq<Sst>)
    requires AllWellFormed(ssts) && ssts != [] && AllWellFormed(next)
    ensures Merged(Sources(ssts, next)) != [] && Sorted(Merged(Sources(ssts, next)))
    ensures forall j :: 0 <= j < |ssts| ==> Lookup(Merged(Sources(ssts, next)), FirstKey(ssts[j])).Some?
  {
    var sources := Sources(ssts, next);
    forall j | 0 <= j < |ssts| ensures Lookup(Merged(sources), FirstKey(ssts[j])).Some? {
      MergedAnswers(sources, FirstKey(ssts[j]));
      assert sources[|ssts| - 1 - j] == ssts[j].entries;
      LookupAt(ssts[j].entries, 0);
    }
    MergedAnswers(sources, FirstKey(ssts[0]));
    assert Lookup(Merged(sources), FirstKey(ssts[0])).Some?;
  }

  // ---- the level invariant ----

  /** Under the guard the next level stays sorted and disjoint. */
  lemma NextLevelSorted(ssts: seq<Sst>, next: seq<Sst>, id: nat, sizeOf: seq<Entry> -> nat)
    requires AllWellFormed(ssts) && ssts != [] && SortedLevel(next) && SentinelSafe(ssts, next)
    ensures SortedLevel(NextLevel(ssts, next, id, sizeOf))
  {
    var cut := CutNext(ssts, next);
    var entries := Merged(Sources(ssts, next));
    var merged := Sst(id, entries, sizeOf(entries));
    MergedNonEmpty(ssts, next);
    CutNextIs(ssts, next);
    LookupAt(entries, 0);
    LookupAt(entries, |entries| - 1);
    MergedKeyBetween(ssts, next, FirstKey(merged));
    MergedKeyBetween(ssts, next, LastKey(merged));
    SpliceSorted(next, cut.left + 1, cut.right, merged);
  }

  lemma SpliceSorted(next: seq<Sst>, l: nat, r: nat, merged: Sst)
    requires SortedLevel(next) && l <= r <= |next| && WellFormed(merged)
    requires forall i :: 0 <= i < l ==> Lt(LastKey(next[i]), FirstKey(merged))
    requires forall i :: r <= i < |next| ==> Lt(LastKey(merged), FirstKey(next[i]))
    ensures SortedLevel(next[..l] + [merged] + next[r..])
  {
    var out := next[..l] + [merged] + next[r..];
    assert forall i :: 0 <= i < l ==> out[i] == next[i];
    assert out[l] == merged;
    assert forall i :: l < i < |out| ==> out[i] == next[i - l - 1 + r];
  }

  /** Exactly when the sentinel guard holds, the compaction keeps the level
      invariant. */
  lemma LevelInvariantIff(ssts: seq<Sst>, next: seq<Sst>, id: nat, sizeOf: seq<Entry> -> nat)
    requires AllWellFormed(ssts) && ssts != [] && SortedLevel(next)
    ensures SortedLevel(NextLevel(ssts, next, id, sizeOf)) <==> SentinelSafe(ssts, next)
  {
    if SentinelSafe(ssts, next) {
      NextLevelSorted(ssts, next, id, sizeOf);
    } else {
      var cut := CutNext(ssts, next);
      CutNextIs(ssts, next);
      var entries := Merged(Sources(ssts, next));
      var merged := Sst(id, entries, sizeOf(entries));
      var out := NextLevel(ssts, next, id, sizeOf);
      var j :| 0 <= j < |ssts| && FirstKey(ssts[j]) == [];
      MergedNonEmpty(ssts, next);
      assert Lookup(entries, []).Some?;
      KeyInRange(merged, []);
      assert FirstKey(merged) == [];
      assert out[cut.left] == next[cut.left] && out[cut.left + 1] == merged;
    }
  }

  lemma UnsafeCut(ssts: seq<Sst>, next: seq<Sst>, id: nat, sizeOf: seq<Entry> -> nat)
    requires AllWellFormed(ssts) && ssts != [] && SortedLevel(next) && !SentinelSafe(ssts, next)
    ensures var cut, entries := CutNext(ssts, next), Merged(Sources(ssts, next));
            && 0 <= cut.left < cut.right && CutIs(next, ScanMin(ssts, []), ScanMax(ssts, []), cut)
            && entries != [] && Sorted(entries) && entries[0].key == []
  {
    CutNextIs(ssts, next);
    var entries := Merged(Sources(ssts, next));
    var j :| 0 <= j < |ssts| && FirstKey(ssts[j]) == [];
    MergedNonEmpty(ssts, next);
    assert Lookup(entries, []).Some?;
    KeyInRange(Sst(id, entries, 0), []);
  }

  /** A bisection whose test changes once finds the change, sorted or not. */
  lemma {:induction false} BisectFinds(ssts: seq<Sst>, key: Bytes, l: nat, r: nat, m: nat)
    requires AllWellFormed(ssts) && l <= m <= r <= |ssts|
    requires forall i :: 0 <= i < |ssts| ==> (Lt(key, FirstKey(ssts[i])) <==> m <= i)
    ensures Bisect(ssts, key, l, r) == m
    decreases r - l
  {
    hide Lt;
    if l < r {
      var mid := (l + r) / 2;
      if m <= mid { BisectFinds(ssts, key, l, mid, m); } else { BisectFinds(ssts, key, mid + 1, r, m); }
    }
  }

  /** Where the new level's bisection goes for a key of the last SST left of the
      cut: to the merged SST, which starts with the empty key. */
  lemma UnsafeBisect(ssts: seq<Sst>, next: seq<Sst>, id: nat, sizeOf: seq<Entry> -> nat, key: Bytes)
    requires AllWellFormed(ssts) && ssts != [] && SortedLevel(next) && !SentinelSafe(ssts, next)
    requires CutNext(ssts, next).left >= 0 && Lookup(next[CutNext(ssts, next).left].entries, key).Some?
    requires AllWellFormed(NextLevel(ssts, next, id, sizeOf))
    ensures var out := NextLevel(ssts, next, id, sizeOf);
            Bisect(out, key, 0, |out|) == CutNext(ssts, next).left + 2
  {
    hide Lt, Lookup, Merged, ScanMin, ScanMax, SentinelSafe;
    UnsafeCut(ssts, next, id, sizeOf);
    var cut, out := CutNext(ssts, next), NextLevel(ssts, next, id, sizeOf);
    var min, max := ScanMin(ssts, []), ScanMax(ssts, []);
    KeyInRange(next[cut.left], key);
    MinBelowMax(ssts);
    forall i | 0 <= i < |out| ensures Lt(key, FirstKey(out[i])) <==> cut.left + 2 <= i {
      if i <= cut.left {
        assert out[i] == next[i];
        if i < cut.left { StartsAscend(next, i, cut.left); }
        Chain(FirstKey(next[i]), FirstKey(next[cut.left]), key);
        Trichotomy(FirstKey(next[i]), key);
      } else if i == cut.left + 1 {
        assert FirstKey(out[i]) == [];
        NothingBelowEmpty(key);
      } else {
        var j := i - (cut.left + 2) + cut.right;
        assert out[i] == next[j] && Lt(max, FirstKey(next[j]));
        Chain(key, LastKey(next[cut.left]), min);
        Chain(key, min, max);
        Chain(key, max, FirstKey(next[j]));
      }
    }
    BisectFinds(out, key, 0, |out|, cut.left + 2);
  }

  lemma NothingBelowEmpty(key: Bytes)
    ensures !Lt(key, [])
  {
  }

  lemma MinBelowMax(ssts: seq<Sst>)
    requires AllWellFormed(ssts) && ssts != []
    ensures Le(ScanMin(ssts, []), ScanMax(ssts, []))
  {
    ScanMinIsFirst(ssts, []);
    ScanMaxBounds(ssts, []);
    var i :| 0 <= i < |ssts| && FirstKey(ssts[i]) == ScanMin(ssts, []);
    FirstBelowLast(ssts[i]);
    Chain(ScanMin(ssts, []), LastKey(ssts[i]), ScanMax(ssts, []));
  }

  /** Without the guard keys are lost: whatever the last SST left of the cut holds
      and the compacted level does not know was answered by the next level before
      the compaction and is not afterwards. */
  lemma UnsafeLoses(ssts: seq<Sst>, next: seq<Sst>, level: nat, id: nat, sizeOf: seq<Entry> -> nat, key: Bytes)
    requires AllWellFormed(ssts) && ssts != [] && SortedLevel(next) && !SentinelSafe(ssts, next) && level > 0
    ensures 0 <= CutNext(ssts, next).left
    ensures var last := next[CutNext(ssts, next).left];
            Lookup(last.entries, key).Some? && Newest(NewestFirst(ssts), key).None? ==>
              && LevelAnswer(level, next, key) == Lookup(last.entries, key)
              && AllWellFormed(NextLevel(ssts, next, id, sizeOf))
              && LevelAnswer(level, NextLevel(ssts, next, id, sizeOf), key) == None
  {
    hide Lt, Lookup, Merged, ScanMin, ScanMax, SentinelSafe, Bisect, Newest;
    UnsafeCut(ssts, next, id, sizeOf);
    var cut := CutNext(ssts, next);
    if Lookup(next[cut.left].entries, key).Some? && Newest(NewestFirst(ssts), key).None? {
      BisectionSuffices(level, next, key);
      LevelKnows(next, key, cut.left);
      NextLevelWellFormed(ssts, next, id, sizeOf);
      UnsafeBisect(ssts, next, id, sizeOf, key);
      AnswerOf(ssts, next, key);
      OverlapSilent(next, cut, key);
    }
  }

  lemma OverlapSilent(next: seq<Sst>, cut: Cut, key: Bytes)
    requires SortedLevel(next) && 0 <= cut.left < cut.right <= |next| && cut.overlap == next[cut.left + 1..cut.right]
    requires Lookup(next[cut.left].entries, key).Some?
    ensures Newest(Tables(cut.overlap), key) == None
  {
    hide Lookup;
    forall i | 0 <= i < |cut.overlap| ensures Lookup(Tables(cut.overlap)[i], key).None? {
      if Lookup(next[cut.left + 1 + i].entries, key).Some? { OnlyOneKnows(next, key, cut.left, cut.left + 1 + i); }
    }
  }

  // ---- meaning ----

  lemma AnswerOf(ssts: seq<Sst>, next: seq<Sst>, key: Bytes)
    requires AllWellFormed(ssts) && ssts != [] && SortedLevel(next)
    ensures Lookup(Merged(Sources(ssts, next)), key)
         == if Newest(NewestFirst(ssts), key).Some? then Newest(NewestFirst(ssts), key)
            else Newest(Tables(CutNext(ssts, next).overlap), key)
  {
    MergedAnswers(Sources(ssts, next), key);
    NewestConcat(NewestFirst(ssts), Tables(CutNext(ssts, next).overlap), key);
  }

  lemma LevelKnows(ssts: seq<Sst>, key: Bytes, i: nat)
    requires SortedLevel(ssts) && i < |ssts| && Lookup(ssts[i].entries, key).Some?
    ensures Newest(Tables(ssts), key) == Lookup(ssts[i].entries, key)
  {
    forall j | 0 <= j < i ensures Lookup(Tables(ssts)[j], key).None? {
      if Lookup(ssts[j].entries, key).Some? { OnlyOneKnows(ssts, key, i, j); }
    }
    NewestIs(Tables(ssts), key, i);
  }

  /** The merged level answers for both: the level's own answer if it has one,
      else what the next level said. */
  lemma NextLevelAnswers(ssts: seq<Sst>, next: seq<Sst>, id: nat, sizeOf: seq<Entry> -> nat, key: Bytes)
    requires AllWellFormed(ssts) && ssts != [] && SortedLevel(next) && SentinelSafe(ssts, next)
    ensures Newest(Tables(NextLevel(ssts, next, id, sizeOf)), key)
         == if Newest(NewestFirst(ssts), key).Some? then Newest(NewestFirst(ssts), key) else Newest(Tables(next), key)
  {
    var cut := CutNext(ssts, next);
    var out := NextLevel(ssts, next, id, sizeOf);
    NextLevelSorted(ssts, next, id, sizeOf);
    CutNextIs(ssts, next);
    AnswerOf(ssts, next, key);
    SpliceAnswers(next, cut.left + 1, cut.right, out[cut.left + 1], Newest(NewestFirst(ssts), key), key);
  }

  /** Replacing the stretch from l to r by one SST that answers own, or else for the stretch. */
  lemma SpliceAnswers(next: seq<Sst>, l: nat, r: nat, merged: Sst, own: Option<Bytes>, key: Bytes)
    requires l <= r <= |next| && SortedLevel(next) && SortedLevel(next[..l] + [merged] + next[r..])
    requires Lookup(merged.entries, key) == if own.Some? then own else Newest(Tables(next[l..r]), key)
    ensures Newest(Tables(next[..l] + [merged] + next[r..]), key)
         == if own.Some? then own else Newest(Tables(next), key)
  {
    hide Lt, Lookup, Sorted;
    var out := next[..l] + [merged] + next[r..];
    assert out[l] == merged;
    if Lookup(merged.entries, key).Some? {
      LevelKnows(out, key, l);
      if own.None? { StretchKnows(next, l, r, key); }
    } else if i :| 0 <= i < |next| && Lookup(next[i].entries, key).Some? {
      OtherKnows(next, l, r, merged, i, key);
    } else {
      forall j | 0 <= j < |out| ensures Lookup(Tables(out)[j], key).None? {
        assert j != l ==> out[j] == next[if j < l then j else j - l - 1 + r];
      }
    }
  }

  lemma StretchKnows(next: seq<Sst>, l: nat, r: nat, key: Bytes)
    requires l <= r <= |next| && SortedLevel(next) && Newest(Tables(next[l..r]), key).Some?
    ensures Newest(Tables(next[l..r]), key) == Newest(Tables(next), key)
  {
    hide Lt, Lookup, Sorted;
    var i :| 0 <= i < r - l && Lookup(Tables(next[l..r])[i], key).Some?;
    OverlapSorted(next, l, r);
    LevelKnows(next[l..r], key, i);
    LevelKnows(next, key, l + i);
  }

  lemma OtherKnows(next: seq<Sst>, l: nat, r: nat, merged: Sst, i: nat, key: Bytes)
    requires l <= r <= |next| && SortedLevel(next) && SortedLevel(next[..l] + [merged] + next[r..])
    requires i < |next| && Lookup(next[i].entries, key).Some?
    ensures Newest(Tables(next[..l] + [merged] + next[r..]), key) == Newest(Tables(next), key)
         || Newest(Tables(next[l..r]), key).Some?
  {
    hide Lt, Lookup, Sorted;
    LevelKnows(next, key, i);
    if l <= i < r {
      assert Tables(next[l..r])[i - l] == next[i].entries;
    } else {
      LevelKnows(next[..l] + [merged] + next[r..], key, if i < l then i else i - r + l + 1);
    }
  }

  lemma OverlapSorted(next: seq<Sst>, l: nat, r: nat)
    requires SortedLevel(next) && l <= r <= |next|
    ensures SortedLevel(next[l..r])
  {
  }

  lemma NextLevelWellFormed(ssts: seq<Sst>, next: seq<Sst>, id: nat, sizeOf: seq<Entry> -> nat)
    requires AllWellFormed(ssts) && ssts != [] && AllWellFormed(next)
    ensures AllWellFormed(NextLevel(ssts, next, id, sizeOf))
  {
    hide Merged, Sources, ScanMin, ScanMax, ScanNext, Lt;
    MergedNonEmpty(ssts, next);
    var cut := CutNext(ssts, next);
    var entries := Merged(Sources(ssts, next));
    assert WellFormed(Sst(id, entries, sizeOf(entries)));
    assert AllWellFormed(next[..cut.left + 1]) && AllWellFormed(next[cut.right..]);
  }

  lemma CompactedWellFormed(levels: seq<seq<Sst>>, level: nat, id: nat, sizeOf: seq<Entry> -> nat)
    requires LevelsWellFormed(levels) && level < |levels| && levels[level] != []
    ensures LevelsWellFormed(Compacted(levels, level, id, sizeOf))
  {
    NextLevelWellFormed(levels[level], Below(levels, level), id, sizeOf);
  }

  /** The tree invariant survives a compaction exactly under the guard. */
  lemma CompactedInvariant(levels: seq<seq<Sst>>, level: nat, id: nat, sizeOf: seq<Entry> -> nat)
    requires TreeInvariant(levels) && level < |levels| && levels[level] != []
    ensures TreeInvariant(Compacted(levels, level, id, sizeOf)) <==> SentinelSafe(levels[level], Below(levels, level))
  {
    var levels' := Compacted(levels, level, id, sizeOf);
    LevelInvariantIff(levels[level], Below(levels, level), id, sizeOf);
    assert levels'[level + 1] == NextLevel(levels[level], Below(levels, level), id, sizeOf);
    assert forall i :: 0 <= i < |levels'| && i != level && i != level + 1 ==> levels'[i] == levels[i];
  }

  lemma {:induction false} SkipLevels(levels: seq<seq<Sst>>, levels': seq<seq<Sst>>, i: nat, key: Bytes)
    requires LevelsWellFormed(levels) && LevelsWellFormed(levels') && i <= |levels| <= |levels'|
    requires forall j :: i <= j < |levels| ==> levels'[j] == levels[j]
    requires forall j :: |levels| <= j < |levels'| ==> levels'[j] == []
    ensures TreeAnswer(levels', i, key) == TreeAnswer(levels, i, key)
    decreases |levels'| - i
  {
    hide Sorted;
    if i < |levels| {
      SkipLevels(levels, levels', i + 1, key);
    } else if i < |levels'| {
      EmptyTail(levels', i, key);
    }
  }

  lemma {:induction false} EmptyTail(levels: seq<seq<Sst>>, i: nat, key: Bytes)
    requires LevelsWellFormed(levels)
    requires forall j :: i <= j < |levels| ==> levels[j] == []
    ensures TreeAnswer(levels, i, key) == None
    decreases |levels| - i
  {
    if i < |levels| {
      EmptyTail(levels, i + 1, key);
    }
  }

  lemma {:induction false} SameBelow(levels: seq<seq<Sst>>, levels': seq<seq<Sst>>, i: nat, n: nat, key: Bytes)
    requires LevelsWellFormed(levels) && LevelsWellFormed(levels') && i <= n <= |levels| && n <= |levels'|
    requires forall j :: i <= j < n ==> levels'[j] == levels[j]
    requires TreeAnswer(levels', n, key) == TreeAnswer(levels, n, key)
    ensures TreeAnswer(levels', i, key) == TreeAnswer(levels, i, key)
    decreases n - i
  {
    hide LevelAnswer, Sorted;
    if i < n {
      SameBelow(levels, levels', i + 1, n, key);
    }
  }

  /** Compaction preserves meaning: every key, tombstones included, has the same
      answer before and after, at any level. */
  lemma CompactionPreservesAnswers(levels: seq<seq<Sst>>, level: nat, id: nat, sizeOf: seq<Entry> -> nat, key: Bytes)
    requires TreeInvariant(levels) && level < |levels| && levels[level] != []
    requires SentinelSafe(levels[level], Below(levels, level))
    ensures TreeInvariant(Compacted(levels, level, id, sizeOf))
    ensures TreeAnswer(Compacted(levels, level, id, sizeOf), 0, key) == TreeAnswer(levels, 0, key)
  {
    hide Lt, Sorted, TreeAnswer, NextLevel, SentinelSafe, Newest, NewestFirst, Tables;
    var levels' := Compacted(levels, level, id, sizeOf);
    CompactedInvariant(levels, level, id, sizeOf);
    NextLevelAnswers(levels[level], Below(levels, level), id, sizeOf, key);
    assert levels'[level] == [] && levels'[level + 1] == NextLevel(levels[level], Below(levels, level), id, sizeOf);
    assert forall i :: 0 <= i < |levels'| && i != level && i != level + 1 ==> levels'[i] == levels[i];
    TwoLevels(levels, levels', level, key);
    SameBelow(levels, levels', 0, level, key);
  }

  lemma TwoLevels(levels: seq<seq<Sst>>, levels': seq<seq<Sst>>, level: nat, key: Bytes)
    requires TreeInvariant(levels) && TreeInvariant(levels') && level < |levels|
    requires |levels'| == if level + 1 == |levels| then |levels| + 1 else |levels|
    requires levels'[level] == []
    requires forall i :: level + 2 <= i < |levels'| ==> levels'[i] == levels[i]
    requires Newest(Tables(levels'[level + 1]), key)
          == if Newest(NewestFirst(levels[level]), key).Some? then Newest(NewestFirst(levels[level]), key)
             else Newest(Tables(Below(levels, level)), key)
    ensures TreeAnswer(levels', level, key) == TreeAnswer(levels, level, key)
  {
    hide Lt, Lookup, Sorted, Bisect, Tables;
    BisectionSuffices(level + 1, levels'[level + 1], key);
    assert LevelAnswer(level, levels[level], key) == Newest(NewestFirst(levels[level]), key) by {
      if level > 0 {
        BisectionSuffices(level, levels[level], key);
        DirectionFree(levels[level], key);
      }
    }
    assert LevelAnswer(level, [], key) == None;
    if level + 1 < |levels| {
      BisectionSuffices(level + 1, levels[level + 1], key);
      SkipLevels(levels, levels', level + 2, key);
    }
    assert TreeAnswer(levels', level + 2, key) == TreeAnswer(levels, level + 2, key);
    assert TreeAnswer(levels', level + 1, key)
        == if Newest(Tables(levels'[level + 1]), key).Some? then Newest(Tables(levels'[level + 1]), key)
           else TreeAnswer(levels', level + 2, key);
  }
}
