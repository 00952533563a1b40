/** The manifest: one version of the tree, its maintenance and its file. */
module Manifest {
  import opened ByteOrder
  import opened Runs
  import opened Merge
  import opened Levels
  import opened Compaction
  import opened Cascade
  import opened Words
  import opened Buffers

  // ---- the manifest file ----

  /** The word that closes a level: size_t(-1). */
  const END_OF_LEVEL: nat := U64_LIMIT - 1

  /** File numbers pass through an int when an SST is opened. */
  const ID_LIMIT: nat := 0x8000_0000

  predicate Storable(version: nat, levels: seq<seq<Sst>>) {
    && version < U64_LIMIT
    && |levels| < U64_LIMIT
    && forall l :: 0 <= l < |levels| ==> IdsFit(levels[l])
  }

  predicate IdsFit(ssts: seq<Sst>) {
    forall i :: 0 <= i < |ssts| ==> ssts[i].id < ID_LIMIT
  }

  function LevelImage(ssts: seq<Sst>): (b: Bytes)
    requires IdsFit(ssts)
    ensures |b| == 8 * (|ssts| + 1)
  {
    if ssts == [] then U64(END_OF_LEVEL) else U64(ssts[0].id) + LevelImage(ssts[1..])
  }

  function TreeImage(levels: seq<seq<Sst>>): Bytes
    requires forall l :: 0 <= l < |levels| ==> IdsFit(levels[l])
  {
    if levels == [] then [] else LevelImage(levels[0]) + TreeImage(levels[1..])
  }

  function Image(version: nat, levels: seq<seq<Sst>>): Bytes
    requires Storable(version, levels)
  {
    U64(version) + U64(|levels|) + TreeImage(levels)
  }

  /** Manifest::binary_size. */
  function ImageSize(levels: seq<seq<Sst>>): nat {
    if levels == [] then 16 else ImageSize(levels[..|levels| - 1]) + 8 * (|levels[|levels| - 1]| + 1)
  }

  lemma {:induction false} TreeImageSize(levels: seq<seq<Sst>>)
    requires forall l :: 0 <= l < |levels| ==> IdsFit(levels[l])
    ensures |TreeImage(levels)| + 16 == ImageSize(levels)
  {
    if levels != [] {
      TreeImageSize(levels[..|levels| - 1]);
      TreeImageSnoc(levels[..|levels| - 1], levels[|levels| - 1]);
      assert levels == levels[..|levels| - 1] + [levels[|levels| - 1]];
    }
  }

  lemma {:induction false} TreeImageSnoc(levels: seq<seq<Sst>>, ssts: seq<Sst>)
    requires IdsFit(ssts) && forall l :: 0 <= l < |levels| ==> IdsFit(levels[l])
    ensures TreeImage(levels + [ssts]) == TreeImage(levels) + LevelImage(ssts)
  {
    if levels == [] {
      assert levels + [ssts] == [ssts];
      assert TreeImage([ssts]) == LevelImage(ssts) + TreeImage([]);
    } else {
      assert (levels + [ssts])[1..] == levels[1..] + [ssts];
      TreeImageSnoc(levels[1..], ssts);
    }
  }

  lemma {:induction false} LevelImageSplit(ssts: seq<Sst>, i: nat)
    requires IdsFit(ssts) && i <= |ssts|
    ensures LevelImage(ssts) == LevelImage(ssts)[..8 * i] + LevelImage(ssts[i..])
    ensures i < |ssts| ==> LevelImage(ssts)[..8 * (i + 1)] == LevelImage(ssts)[..8 * i] + U64(ssts[i].id)
  {
    hide Encode;
    if i == 0 {
      assert ssts[0..] == ssts;
    } else {
      LevelImageSplit(ssts[1..], i - 1);
      assert ssts[1..][i - 1..] == ssts[i..];
      var rest := LevelImage(ssts[1..]);
      assert LevelImage(ssts) == U64(ssts[0].id) + rest;
      assert LevelImage(ssts)[..8 * i] == U64(ssts[0].id) + rest[..8 * (i - 1)];
      if i < |ssts| {
        assert LevelImage(ssts)[..8 * (i + 1)] == U64(ssts[0].id) + rest[..8 * i];
      }
    }
  }

  /** Level::Save through a cursor; returns the bytes written. */
  method SaveLevel(data: array<char>, start: nat, ssts: seq<Sst>) returns (written: nat)
    requires IdsFit(ssts) && start + 8 * (|ssts| + 1) <= data.Length
    modifies data
    ensures written == 8 * (|ssts| + 1)
    ensures data[..start + written] == old(data[..start]) + LevelImage(ssts)
  {
    hide Encode;
    var index := 0;
    for i := 0 to |ssts|
      invariant index == 8 * i
      invariant data[..start + index] == old(data[..start]) + LevelImage(ssts)[..8 * i]
    {
      Write(data, start + index, U64(ssts[i].id));
      LevelImageSplit(ssts, i);
      index := index + 8;
    }
    LevelImageSplit(ssts, |ssts|);
    Write(data, start + index, U64(END_OF_LEVEL));
    index := index + 8;
    return index;
  }

  method SaveLevels(data: array<char>, levels: seq<seq<Sst>>)
    requires data.Length == ImageSize(levels) >= 16
    requires forall l :: 0 <= l < |levels| ==> IdsFit(levels[l])
    modifies data
    ensures data[..] == old(data[..16]) + TreeImage(levels)
  {
    hide Encode;
    var index := 16;
    ghost var header := data[..16];
    assert levels[..0] == [] && header + TreeImage([]) == header;
    for l := 0 to |levels|
      invariant index == ImageSize(levels[..l]) <= data.Length
      invariant data[..index] == header + TreeImage(levels[..l])
    {
      NextLevelImage(levels, l);
      ghost var before := data[..index];
      var written := SaveLevel(data, index, levels[l]);
      index := index + written;
      assert data[..index] == before + LevelImage(levels[l]);
      assert before + LevelImage(levels[l]) == header + (TreeImage(levels[..l]) + LevelImage(levels[l]));
    }
    assert levels[..|levels|] == levels;
    assert data[..] == data[..index];
  }

  /** Manifest::Save: the file's bytes. */
  method Save(version: nat, levels: seq<seq<Sst>>) returns (data: array<char>)
    requires Storable(version, levels)
    ensures fresh(data) && data[..] == Image(version, levels)
  {
    TreeImageSize(levels);
    data := new char[ImageSize(levels)];
    Write(data, 0, U64(version));
    Write(data, 8, U64(|levels|));
    SaveLevels(data, levels);
  }

  lemma NextLevelImage(levels: seq<seq<Sst>>, l: nat)
    requires l < |levels| && forall i :: 0 <= i < |levels| ==> IdsFit(levels[i])
    ensures TreeImage(levels[..l + 1]) == TreeImage(levels[..l]) + LevelImage(levels[l])
    ensures ImageSize(levels[..l + 1]) == ImageSize(levels[..l]) + 8 * (|levels[l]| + 1) <= ImageSize(levels)
  {
    assert levels[..l + 1][..l] == levels[..l];
    assert levels[..l] + [levels[l]] == levels[..l + 1];
    TreeImageSnoc(levels[..l], levels[l]);
    SizeMonotone(levels, l + 1);
  }

  lemma {:induction false} SizeMonotone(levels: seq<seq<Sst>>, l: nat)
    requires l <= |levels|
    ensures ImageSize(levels[..l]) <= ImageSize(levels)
    decreases |levels| - l
  {
    if l < |levels| {
      assert levels[..l + 1][..l] == levels[..l];
      SizeMonotone(levels, l + 1);
    } else {
      assert levels[..l] == levels;
    }
  }

  /** What is on disk: the SST behind each file number. */
  ghost predicate OnDisk(files: map<nat, Sst>, levels: seq<seq<Sst>>) {
    forall l, i :: 0 <= l < |levels| && 0 <= i < |levels[l]| ==>
                     levels[l][i].id in files && files[levels[l][i].id] == levels[l][i]
  }

  function Max(a: nat, b: nat): nat {
    if a > b then a else b
  }

  /** The largest file number of a level, or the start value. */
  function MaxId(ssts: seq<Sst>, max: nat): nat {
    if ssts == [] then max else MaxId(ssts[1..], Max(max, ssts[0].id))
  }

  function MaxTreeId(levels: seq<seq<Sst>>, max: nat): nat {
    if levels == [] then max else MaxTreeId(levels[1..], MaxId(levels[0], max))
  }

  /** Level::Load: read file numbers until the closing word. */
  method LoadLevel(data: Bytes, start: nat, max0: nat, files: map<nat, Sst>, ghost image: seq<Sst>)
    returns (read: nat, ssts: seq<Sst>, max: nat)
    requires IdsFit(image) && Holds(data, start, LevelImage(image))
    requires forall i :: 0 <= i < |image| ==> image[i].id in files && files[image[i].id] == image[i]
    ensures read == |LevelImage(image)| && ssts == image && max == MaxId(image, max0)
  {
    hide Encode, Decode;
    var index := 0;
    ssts, max := [], max0;
    while true
      invariant |ssts| <= |image| && index == 8 * |ssts|
      invariant ssts == image[..|ssts|]
      invariant Holds(data, start + index, LevelImage(image[|ssts|..]))
      invariant MaxId(image[|ssts|..], max) == MaxId(image, max0)
      decreases |image| - |ssts|
    {
      NextWord(data, start + index, image, |ssts|);
      var id := ReadU64(data, start + index);
      index := index + 8;
      if id != END_OF_LEVEL {
        ghost var rest := image[|ssts|..];
        assert MaxId(rest, max) == MaxId(rest[1..], Max(max, rest[0].id));
        ssts := ssts + [files[id]];
        if id > max {
          max := id;
        }
      } else {
        break;
      }
    }
    read := index;
  }

  /** What the next word of a saved level is, and what follows it. */
  lemma NextWord(data: Bytes, at: nat, image: seq<Sst>, n: nat)
    requires IdsFit(image) && n <= |image| && Holds(data, at, LevelImage(image[n..]))
    ensures at + 8 <= |data|
    ensures n == |image| ==> ReadU64(data, at) == END_OF_LEVEL
    ensures n < |image| ==>
              && ReadU64(data, at) == image[n].id != END_OF_LEVEL
              && image[n..][1..] == image[n + 1..]
              && Holds(data, at + 8, LevelImage(image[n + 1..]))
  {
    var rest := image[n..];
    if rest == [] {
      ReadBack64(data, at, END_OF_LEVEL);
    } else {
      assert rest[1..] == image[n + 1..];
      HoldsParts(data, at, U64(rest[0].id), LevelImage(rest[1..]));
      ReadBack64(data, at, rest[0].id);
    }
  }

  /** The loading constructor's loop: a saved manifest comes back whole, with the
      largest live file number. */
  method Load(data: Bytes, files: map<nat, Sst>, ghost v: nat, ghost image: seq<seq<Sst>>)
    returns (version: nat, levels: seq<seq<Sst>>, max: nat)
    requires Storable(v, image) && data == Image(v, image) && OnDisk(files, image)
    ensures version == v && levels == image && max == MaxTreeId(image, 0)
  {
    hide Encode, Decode;
    Header(data, v, image);
    version := ReadU64(data, 0);
    var count := ReadU64(data, 8);
    var index := 16;
    levels, max := [], 0;
    for l := 0 to count
      invariant levels == image[..l]
      invariant Holds(data, index, TreeImage(image[l..]))
      invariant MaxTreeId(image[l..], max) == MaxTreeId(image, 0)
    {
      assert image[l..][1..] == image[l + 1..];
      HoldsParts(data, index, LevelImage(image[l]), TreeImage(image[l + 1..]));
      var read, ssts, max' := LoadLevel(data, index, max, files, image[l]);
      index := index + read;
      levels := levels + [ssts];
      max := max';
    }
  }

  lemma Header(data: Bytes, v: nat, image: seq<seq<Sst>>)
    requires Storable(v, image) && data == Image(v, image)
    ensures |data| >= 16 && ReadU64(data, 0) == v && ReadU64(data, 8) == |image|
    ensures Holds(data, 16, TreeImage(image[0..]))
  {
    assert data[0..|data|] == data && image[0..] == image;
    HoldsParts(data, 0, U64(v) + U64(|image|), TreeImage(image));
    HoldsParts(data, 0, U64(v), U64(|image|));
    ReadBack64(data, 0, v);
    ReadBack64(data, 8, |image|);
  }

  lemma {:induction false} MaxIdBounds(ssts: seq<Sst>, max: nat)
    ensures max <= MaxId(ssts, max)
    ensures forall i :: 0 <= i < |ssts| ==> ssts[i].id <= MaxId(ssts, max)
  {
    if ssts != [] {
      MaxIdBounds(ssts[1..], Max(max, ssts[0].id));
      assert forall i :: 0 < i < |ssts| ==> ssts[i] == ssts[1..][i - 1];
    }
  }

  /** After reopening, every live file number is at most the loaded maximum. */
  lemma {:induction false} MaxTreeIdBounds(levels: seq<seq<Sst>>, max: nat)
    ensures max <= MaxTreeId(levels, max)
    ensures IdsUpTo(levels, MaxTreeId(levels, max))
  {
    if levels != [] {
      var m := MaxId(levels[0], max);
      MaxIdBounds(levels[0], max);
      MaxTreeIdBounds(levels[1..], m);
      forall l, i | 0 <= l < |levels| && 0 <= i < |levels[l]| ensures levels[l][i].id <= MaxTreeId(levels, max) {
        if l > 0 { assert levels[1..][l - 1][i].id <= MaxTreeId(levels, max); }
      }
    }
  }

  /** The id of a live file. */
  ghost predicate LiveId(levels: seq<seq<Sst>>, id: nat) {
    exists l, i :: 0 <= l < |levels| && 0 <= i < |levels[l]| && levels[l][i].id == id
  }

  lemma {:induction false} MaxIdAttained(ssts: seq<Sst>, max: nat)
    ensures MaxId(ssts, max) == max || exists i :: 0 <= i < |ssts| && ssts[i].id == MaxId(ssts, max)
  {
    if ssts != [] {
      var m := Max(max, ssts[0].id);
      MaxIdAttained(ssts[1..], m);
      if i :| 0 <= i < |ssts[1..]| && ssts[1..][i].id == MaxId(ssts, max) {
        assert ssts[i + 1].id == MaxId(ssts, max);
      } else {
        assert MaxId(ssts, max) == max || ssts[0].id == MaxId(ssts, max);
      }
    }
  }

  /** And the loaded maximum is no larger than needed: it is the number of a live
      file, or the one it started from. */
  lemma {:induction false} MaxTreeIdAttained(levels: seq<seq<Sst>>, max: nat)
    ensures MaxTreeId(levels, max) == max || LiveId(levels, MaxTreeId(levels, max))
  {
    if levels != [] {
      var m, r := MaxId(levels[0], max), MaxTreeId(levels, max);
      MaxIdAttained(levels[0], max);
      MaxTreeIdAttained(levels[1..], m);
      if LiveId(levels[1..], r) {
        var l, i :| 0 <= l < |levels[1..]| && 0 <= i < |levels[1..][l]| && levels[1..][l][i].id == r;
        assert levels[l + 1][i].id == r;
      } else if m != max {
        var i :| 0 <= i < |levels[0]| && levels[0][i].id == m;
        assert levels[0][i].id == r;
      }
    }
  }

  // ---- the loops of a compaction ----

  /** The tables of the level from the back, and the key range as the sentinel leaves it. */
  method CollectLevel(ssts: seq<Sst>) returns (tables: seq<seq<Entry>>, min: Bytes, max: Bytes)
    requires AllWellFormed(ssts)
    ensures tables == NewestFirst(ssts) && min == ScanMin(ssts, []) && max == ScanMax(ssts, [])
  {
    tables, min, max := [], [], [];
    var i := |ssts|;
    assert ssts[..i] == ssts;
    while i > 0
      invariant 0 <= i <= |ssts|
      invariant ScanMin(ssts[..i], min) == ScanMin(ssts, []) && ScanMax(ssts[..i], max) == ScanMax(ssts, [])
      invariant tables == NewestFirst(ssts)[..|ssts| - i]
    {
      i := i - 1;
      assert ssts[..i + 1][..i] == ssts[..i];
      tables := tables + [ssts[i].entries];
      var first, last := FirstKey(ssts[i]), LastKey(ssts[i]);
      if min == [] || Lt(first, min) { min := first; }
      if max == [] || Lt(max, last) { max := last; }
    }
  }

  /** The pass over the next level that finds what stays left, what stays right
      and what is merged. */
  method CollectOverlap(next: seq<Sst>, min: Bytes, max: Bytes) returns (cut: Cut)
    requires AllWellFormed(next)
    ensures cut == ScanNext(next, min, max, 0, Cut(-1, |next|, []))
    ensures AllWellFormed(cut.overlap)
  {
    cut := Cut(-1, |next|, []);
    var i := 0;
    while i < |next|
      invariant 0 <= i <= |next| && -1 <= cut.left < i && cut.right == |next|
      invariant ScanNext(next, min, max, i, cut) == ScanNext(next, min, max, 0, Cut(-1, |next|, []))
      invariant AllWellFormed(cut.overlap)
    {
      if Lt(LastKey(next[i]), min) {
        cut := cut.(left := i);
      } else if Lt(max, FirstKey(next[i])) {
        cut := cut.(right := i);
        return;
      } else {
        cut := cut.(overlap := cut.overlap + [next[i]]);
      }
      i := i + 1;
    }
  }

  // ---- the manifest object ----

  class ManifestVersion {
    var version: nat
    var levels: seq<seq<Sst>>
    var maxSstId: nat
    /** The file size of an SST built from given entries under the configured layout. */
    const sizeOf: seq<Entry> -> nat

    ghost predicate Valid()
      reads this
    {
      TreeInvariant(levels)
    }

    /** A new manifest: no file yet, one empty level. */
    constructor (sizeOf: seq<Entry> -> nat)
      ensures Valid() && version == 1 && levels == [[]] && maxSstId == 0 && this.sizeOf == sizeOf
    {
      version, levels, maxSstId, this.sizeOf := 1, [[]], 0, sizeOf;
    }

    /** The copy that copy-on-write makes: same tree, next version. */
    constructor Copy(m: ManifestVersion)
      requires m.Valid()
      ensures Valid()
      ensures version == m.version + 1 && levels == m.levels && maxSstId == m.maxSstId && sizeOf == m.sizeOf
    {
      version, levels, maxSstId, sizeOf := m.version + 1, m.levels, m.maxSstId, m.sizeOf;
    }

    method Get(key: Bytes) returns (r: Option<Bytes>)
      requires Valid()
      ensures r == TreeAnswer(levels, 0, key)
    {
      r := GetInTree(levels, key);
    }

    /** InsertAndUpdate: the old version keeps serving its readers unchanged. */
    method InsertAndUpdate(sst: Sst) returns (next: ManifestVersion)
      requires Valid() && WellFormed(sst)
      modifies this`maxSstId
      ensures maxSstId == Max(old(maxSstId), sst.id)
      ensures fresh(next) && next.Valid() && next.sizeOf == sizeOf
      ensures next.version == version + 1 && next.maxSstId == maxSstId
      ensures next.levels == levels[0 := levels[0] + [sst]]
    {
      if sst.id > maxSstId {
        maxSstId := sst.id;
      }
      next := new ManifestVersion.Copy(this);
      InsertAnswers(levels, sst, []);
      next.levels := next.levels[0 := next.levels[0] + [sst]];
    }

    /** SizeTieredCompaction(level, id). */
    method CompactLevel(level: nat, id: nat)
      requires LevelsWellFormed(levels) && level < |levels| && levels[level] != []
      modifies this
      ensures levels == Compacted(old(levels), level, id, sizeOf)
      ensures maxSstId == Max(old(maxSstId), id) && version == old(version)
    {
      hide Lt, Merged, Sorted;
      var newest, min, max := CollectLevel(levels[level]);
      if level + 1 == |levels| {
        levels := levels + [[]];
      }
      var next := levels[level + 1];
      var cut := CollectOverlap(next, min, max);
      assert cut == CutNext(levels[level], next);
      var entries := HeapMerge(newest + Tables(cut.overlap));
      var merged := Sst(id, entries, sizeOf(entries));
      if id > maxSstId {
        maxSstId := id;
      }
      levels := levels[level := []][level + 1 := next[..cut.left + 1] + [merged] + next[cut.right..]];
    }

    /** SizeTieredCompaction(id): every threshold it reads exists. */
    method CompactAll(id: nat)
      requires LevelsWellFormed(levels)
      modifies this
      ensures LevelsWellFormed(levels) && levels == Cascaded(old(levels), 0, id, sizeOf)
      ensures maxSstId == if OverLimit(old(levels), 0) then Max(old(maxSstId), id) else old(maxSstId)
      ensures version == old(version)
    {
      hide Compacted, Sorted;
      var i := 0;
      while i < |levels| && i < MAX_LEVEL_SIZE
        invariant 0 <= i <= MAX_LEVEL_SIZE && LevelsWellFormed(levels) && version == old(version)
        invariant Cascaded(levels, i, id, sizeOf) == Cascaded(old(levels), 0, id, sizeOf)
        invariant i == 0 ==> levels == old(levels) && maxSstId == old(maxSstId)
        invariant i > 0 ==> OverLimit(old(levels), 0) && maxSstId == Max(old(maxSstId), id)
        decreases MAX_LEVEL_SIZE - i
      {
        var size := LevelBytes(levels[i]);
        if size > Threshold(i) {
          CompactedWellFormed(levels, i, id, sizeOf);
          CompactLevel(i, id);
        } else {
          break;
        }
        i := i + 1;
      }
    }

    method CanDoCompaction() returns (can: bool)
      requires levels != []
      ensures can <==> LevelSize(levels[0]) > 1024
      ensures can <==> OverLimit(levels, 0)
    {
      var size := LevelBytes(levels[0]);
      can := size > Threshold(0);
    }
  }
}
