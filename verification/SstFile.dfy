/** Building an SST file and loading it again. */
module SstFile {
  import opened ByteOrder
  import opened Runs
  import opened Words
  import opened Buffers
  import opened Bloom
  import opened SstFormat

  /** Every key passes the filter. */
  ghost predicate AllMarked(f: Filter, entries: seq<Entry>)
    requires Valid(f)
  {
    forall i :: 0 <= i < |entries| ==> Marked(f, entries[i].key)
  }

  // ---- searching one block ----

  class DataBlock {
    const key: Bytes
    const filter: BloomFilter
    const entries: seq<Entry>

    constructor (key: Bytes, filter: BloomFilter, entries: seq<Entry>)
      ensures this.key == key && this.filter == filter && this.entries == entries
    {
      this.key, this.filter, this.entries := key, filter, entries;
    }

    ghost predicate Good()
      reads filter, filter.data
    {
      && filter.Ready() && entries != [] && Sorted(entries) && key == entries[0].key
      && AllMarked(filter.Value(), entries)
    }

    /** DataBlockIndex::Get: the filter first, then a binary search. */
    method Get(wanted: Bytes) returns (r: Option<Bytes>)
      requires Good()
      ensures r == Lookup(entries, wanted)
    {
      hide Lt, Lookup, Marked, Valid;
      var maybe := filter.Check(wanted);
      if !maybe {
        Unmarked(filter.Value(), entries, wanted);
        return None;
      }
      var p := LowerBound(entries, wanted);
      LookupAtPosition(entries, wanted);
      if p == |entries| || entries[p].key != wanted {
        return None;
      }
      return Some(entries[p].value);
    }
  }

  lemma Unmarked(f: Filter, entries: seq<Entry>, key: Bytes)
    requires Valid(f) && AllMarked(f, entries) && !Marked(f, key)
    ensures Lookup(entries, key) == None
  {
    hide Marked, Valid;
  }

  method LowerBound(entries: seq<Entry>, key: Bytes) returns (p: nat)
    requires Sorted(entries)
    ensures p == Position(entries, key)
  {
    hide Lt;
    var l, r := 0, |entries|;
    while l < r
      invariant 0 <= l <= r <= |entries|
      invariant forall i :: 0 <= i < l ==> Lt(entries[i].key, key)
      invariant r < |entries| ==> !Lt(entries[r].key, key)
    {
      var mid := (l + r) / 2;
      if Lt(entries[mid].key, key) {
        forall i | 0 <= i < mid + 1 ensures Lt(entries[i].key, key) {
          if i < mid { LtTransitive(entries[i].key, entries[mid].key, key); }
        }
        l := mid + 1;
      } else {
        r := mid;
      }
    }
    p := r;
    PositionIs(entries, key, p);
  }

  lemma PositionIs(entries: seq<Entry>, key: Bytes, p: nat)
    requires Sorted(entries) && p <= |entries|
    requires forall i :: 0 <= i < p ==> Lt(entries[i].key, key)
    requires p < |entries| ==> !Lt(entries[p].key, key)
    ensures p == Position(entries, key)
  {
    hide Lt;
  }

  class SST {
    const blocks: seq<DataBlock>

    constructor (blocks: seq<DataBlock>)
      ensures this.blocks == blocks
    {
      this.blocks := blocks;
    }

    /** Every file is written with exactly one data block. */
    ghost predicate Holding(entries: seq<Entry>)
      reads blocks, set b | b in blocks :: b.filter, set b | b in blocks :: b.filter.data
    {
      |blocks| == 1 && blocks[0].Good() && blocks[0].entries == entries
    }

    /** IndexBlockIndex::Get: the last block that does not start behind the key. */
    method Get(key: Bytes, ghost entries: seq<Entry>) returns (r: Option<Bytes>)
      requires Holding(entries)
      ensures r == Lookup(entries, key)
    {
      hide Lt, Lookup, Sorted;
      var left, right := 0, |blocks|;
      while left < right
        invariant 0 <= left <= right <= |blocks|
        invariant left == 1 ==> !Lt(key, blocks[0].key)
        invariant right == 0 ==> Lt(key, blocks[0].key)
      {
        var mid := (left + right) / 2;
        if Lt(key, blocks[mid].key) {
          right := mid;
        } else {
          left := mid + 1;
        }
      }
      if right == 0 {
        BeforeFirst(entries, key);
        return None;
      }
      r := blocks[right - 1].Get(key);
    }
  }

  lemma BeforeFirst(entries: seq<Entry>, key: Bytes)
    requires Sorted(entries) && entries != [] && Lt(key, entries[0].key)
    ensures Lookup(entries, key) == None
  {
    hide Lt, Lookup;
    forall i | 0 <= i < |entries| ensures entries[i].key != key {
      LtIrreflexive(key);
      if i > 0 { LtTransitive(key, entries[0].key, entries[i].key); }
    }
  }

  // ---- loading ----

  /** Which layout a block has, and with which code; known to the writer only. */
  datatype Layout = Raw | Encoded(compressed: bool, kind: nat, code: Bytes)

  ghost predicate BlockAt(create: nat -> Option<Compressor>, file: Bytes, at: nat, entries: seq<Entry>, f: Filter,
                          layout: Layout) {
    match layout
    case Raw => RawBlock(file, at, entries, f)
    case Encoded(compressed, kind, code) => EncodedBlock(create, file, at, entries, f, compressed, kind, code)
  }

  method LoadRaw(file: array<char>, at: nat, size: nat, ghost entries: seq<Entry>, ghost f: Filter)
    returns (filter: BloomFilter, loaded: seq<Entry>)
    requires RawBlock(file[..], at, entries, f) && size == 8 + ImageSize(f) + BodySize(entries)
    ensures fresh(filter) && fresh(filter.data) && filter.Ready() && filter.Value() == f && loaded == entries
  {
    hide Stored, Body, Valid, Parsed, BodySize, ImageSize;
    var index := at + 8;
    filter := new BloomFilter();
    var used := filter.Load(file, index, f);
    index := index + used;
    assert file[index..at + size] == file[..][index..index + |Body(entries)|] == Body(entries);
    loaded := ParseEntries(file[index..at + size]);
    BodyRoundTrip(entries);
  }

  /** LoadEncodedBlock. */
  method LoadEncoded(file: array<char>, payload: nat, size: nat, create: nat -> Option<Compressor>,
                     ghost entries: seq<Entry>, ghost f: Filter, ghost compressed: bool, ghost kind: nat,
                     ghost code: Bytes)
    returns (filter: BloomFilter, loaded: seq<Entry>)
    requires LosslessAll(create) && EncodedPayload(file[..], payload, entries, f, compressed, kind, code)
    requires size == HEADER_SIZE + ImageSize(f) + |code| && Encodes(create, compressed, kind, Body(entries), code)
    ensures fresh(filter) && fresh(filter.data) && filter.Ready() && filter.Value() == f && loaded == entries
  {
    hide Stored, Body, Valid, Parsed, BodySize, ImageSize, HeaderImage, LosslessAll, Lossless, Small;
    EncodedIsRecognised(file[..], payload, compressed, kind, BodySize(entries));
    filter := new BloomFilter();
    var version := file[payload + 4];
    if version != VERSION as char {
      return filter, [];
    }
    var packed := file[payload + 5] as nat % 2 == 1;
    var name := file[payload + 6] as nat;
    var bodySize := ReadU64(file[..], payload + 8);
    var index := HEADER_SIZE;
    var used := filter.Load(file, payload + index, f);
    index := index + used;
    if index > size {
      return filter, [];
    }
    var encoded := file[payload + index..payload + size];
    assert encoded == file[..][payload + index..payload + index + |code|] == code;
    if !packed {
      loaded := ParseEntries(encoded);
    } else {
      Unpack(create, name, Body(entries), encoded);
      var compressor := create(name);
      if compressor.None? {
        return filter, [];
      }
      var storage := compressor.value.decompress(encoded);
      if |storage| != bodySize {
        return filter, [];
      }
      loaded := ParseEntries(storage);
    }
    BodyRoundTrip(entries);
  }

  lemma Unpack(create: nat -> Option<Compressor>, kind: nat, body: Bytes, code: Bytes)
    requires LosslessAll(create) && Encodes(create, true, kind, body, code)
    ensures create(kind).Some? && create(kind).value.decompress(code) == body
  {
  }

  /** DataBlockIndex::Load tells the layouts apart by the first word. */
  method LoadBlock(file: array<char>, at: nat, create: nat -> Option<Compressor>,
                   ghost entries: seq<Entry>, ghost f: Filter, ghost layout: Layout)
    returns (filter: BloomFilter, loaded: seq<Entry>)
    requires LosslessAll(create) && BlockAt(create, file[..], at, entries, f, layout)
    ensures fresh(filter) && fresh(filter.data) && filter.Ready() && filter.Value() == f && loaded == entries
  {
    hide LosslessAll, Stored, Body, Valid, ImageSize, BodySize, Encodes, HeaderImage, Small;
    var size := BlockSize(file, at, create, entries, f, layout);
    var payload := at + 8;
    var payloadSize := if size > 8 then size - 8 else 0;
    Recognised(create, file[..], at, entries, f, layout, payloadSize);
    if LooksEncoded(file[..], payload, payloadSize) {
      filter, loaded := LoadEncoded(file, payload, payloadSize, create, entries, f,
                                   layout.compressed, layout.kind, layout.code);
    } else {
      filter, loaded := LoadRaw(file, at, size, entries, f);
    }
  }

  method BlockSize(file: array<char>, at: nat, create: nat -> Option<Compressor>,
                   ghost entries: seq<Entry>, ghost f: Filter, ghost layout: Layout) returns (size: nat)
    requires BlockAt(create, file[..], at, entries, f, layout)
    ensures size == if layout.Raw? then 8 + ImageSize(f) + BodySize(entries)
                    else 8 + HEADER_SIZE + ImageSize(f) + |layout.code|
  {
    hide Stored, Body, Valid, ImageSize, BodySize, Encodes, HeaderImage, Small, EncodedPayload;
    ghost var n := if layout.Raw? then 8 + ImageSize(f) + BodySize(entries)
                   else 8 + HEADER_SIZE + ImageSize(f) + |layout.code|;
    ReadBack64(file[..], at, n);
    size := ReadU64(file[..], at);
  }

  lemma Recognised(create: nat -> Option<Compressor>, file: Bytes, at: nat, entries: seq<Entry>, f: Filter,
                   layout: Layout,
                   size: nat)
    requires BlockAt(create, file, at, entries, f, layout)
    ensures at + 12 <= |file|
    ensures size >= HEADER_SIZE ==> (LooksEncoded(file, at + 8, size) <==> layout.Encoded?)
  {
    hide Stored, Body, Valid, ImageSize, BodySize, Encodes, HeaderImage, Small;
    match layout
    case Raw => RawIsNotEncoded(file, at, entries, f, size);
    case Encoded(compressed, kind, code) =>
      EncodedIsRecognised(file, at + 8, compressed, kind, BodySize(entries));
  }

  /** A complete file whose index block ends below 2^31. */
  ghost predicate FileOf(create: nat -> Option<Compressor>, file: Bytes, entries: seq<Entry>, f: Filter,
                         layout: Layout) {
    && entries != [] && IndexSize(entries) < 0x8000_0000
    && Holds(file, 0, IndexImage(entries))
    && BlockAt(create, file, IndexSize(entries), entries, f, layout)
  }

  lemma IndexReadBack(file: Bytes, entries: seq<Entry>)
    requires entries != [] && IndexSize(entries) < U64_LIMIT && Holds(file, 0, IndexImage(entries))
    ensures 32 + |entries[0].key| <= |file|
    ensures ReadU64(file, 8) == 1 && ReadU64(file, 16) == IndexSize(entries) && ReadU64(file, 24) == |entries[0].key|
    ensures file[32..32 + |entries[0].key|] == entries[0].key
  {
    hide U64, ReadU64, IndexSize;
    var n, key := IndexSize(entries), entries[0].key;
    var s, one, k := U64(n), U64(1), U64(|key|);
    HoldsParts(file, 0, s + one + s + k, key);
    HoldsParts(file, 0, s + one + s, k);
    HoldsParts(file, 0, s + one, s);
    HoldsParts(file, 0, s, one);
    ReadBack64(file, 8, 1);
    ReadBack64(file, 16, n);
    ReadBack64(file, 24, |key|);
  }

  /** IndexBlockIndex::Load: exactly the entries that were written. */
  method Load(file: array<char>, create: nat -> Option<Compressor>,
              ghost entries: seq<Entry>, ghost f: Filter, ghost layout: Layout) returns (sst: SST)
    requires LosslessAll(create) && FileOf(create, file[..], entries, f, layout)
    requires Sorted(entries) && Valid(f) && AllMarked(f, entries)
    ensures fresh(sst) && sst.Holding(entries)
  {
    hide LosslessAll, BlockAt, Valid, AllMarked, Sorted, IndexImage, IndexSize, Lt;
    IndexReadBack(file[..], entries);
    var count := ReadU64(file[..], 8);
    var index := 16;
    var blocks: seq<DataBlock> := [];
    for i := 0 to count
      invariant |blocks| == i && (i == 0 ==> index == 16)
      invariant i == 1 ==> fresh(blocks[0]) && blocks[0].Good() && blocks[0].entries == entries
    {
      var offset := ReadU64(file[..], index);
      var keySize := ReadU64(file[..], index + 8);
      var key := file[index + 16..index + 16 + keySize];
      assert key == file[..][32..32 + keySize];
      OffsetExactIff(offset);
      var filter, loaded := LoadBlock(file, ThroughInt32(offset), create, entries, f, layout);
      var block := new DataBlock(key, filter, loaded);
      blocks := blocks + [block];
      index := index + 16 + keySize;
    }
    sst := new SST(blocks);
  }

  // ---- building ----

  /** All sizes fit in 64 bits. */
  predicate Buildable(entries: seq<Entry>, c: real) {
    entries != [] && BitsPerKey(c)
    && IndexSize(entries) + BodySize(entries) + LengthFor(|entries|, c) + 0x1_0000 < U64_LIMIT
  }

  lemma {:induction false} BuildableSmall(entries: seq<Entry>)
    requires BodySize(entries) < U64_LIMIT
    ensures Small(entries)
  {
    forall i | 0 <= i < |entries| ensures |entries[i].key| + |entries[i].value| <= ByteSize(entries) {
      ByteSizeAt(entries, i);
    }
  }

  lemma ImageBound(f: Filter)
    requires Modest(f)
    ensures ImageSize(f) <= f.length + 0x1000
  {
    ImageSizeIs(f);
  }

  /** The filter of all keys. */
  method BuildFilter(entries: seq<Entry>, c: real, random: nat -> nat) returns (filter: BloomFilter)
    requires entries != [] && BitsPerKey(c) && LengthFor(|entries|, c) < U64_LIMIT
    requires forall i :: random(i) < U64_LIMIT
    ensures fresh(filter) && fresh(filter.data) && filter.Ready() && Modest(filter.Value())
    ensures filter.length == LengthFor(|entries|, c) && AllMarked(filter.Value(), entries)
    ensures exists f :: Cleared(f) && filter.Value() == InsertedAll(f, KeysOf(entries))
  {
    hide Valid, Marked, Inserted, LengthFor;
    filter := new BloomFilter();
    filter.Init(|entries|, c, random);
    ghost var cleared := filter.Value();
    ClearedIs(cleared);
    assert KeysOf(entries)[..0] == [] && KeysOf(entries)[..|entries|] == KeysOf(entries);
    for i := 0 to |entries|
      invariant Cleared(cleared) && filter.Value() == InsertedAll(cleared, KeysOf(entries)[..i])
      invariant fresh(filter) && fresh(filter.data) && filter.Ready() && Modest(filter.Value())
      invariant filter.length == LengthFor(|entries|, c)
      invariant forall j :: 0 <= j < i ==> Marked(filter.Value(), entries[j].key)
    {
      ghost var f := filter.Value();
      filter.Insert(entries[i].key);
      InsertMarks(f, entries[i].key, entries[i].key);
      forall j | 0 <= j < i ensures Marked(filter.Value(), entries[j].key) {
        InsertMarks(f, entries[i].key, entries[j].key);
      }
      InsertedShape(f, entries[i].key);
      InsertedNext(cleared, KeysOf(entries), i);
    }
  }

  function KeysOf(entries: seq<Entry>): seq<Bytes> {
    seq(|entries|, i requires 0 <= i < |entries| => entries[i].key)
  }

  /** A filter as Init leaves it: MarkedIff speaks of what is inserted into it. */
  ghost predicate Cleared(f: Filter) {
    && Valid(f) && f.length > 0 && |f.words| == f.length / 64 + 1
    && forall i :: 0 <= i < |f.words| ==> f.words[i] == 0
  }

  lemma ClearedIs(f: Filter)
    requires Valid(f) && forall i :: 0 <= i < |f.words| ==> f.words[i] == 0
    ensures Cleared(f)
  {
  }

  lemma InsertedNext(f: Filter, keys: seq<Bytes>, i: nat)
    requires Valid(f) && i < |keys|
    ensures InsertedAll(f, keys[..i + 1]) == Inserted(InsertedAll(f, keys[..i]), keys[i])
  {
    hide Inserted;
    assert keys[..i + 1][..i] == keys[..i];
  }

  lemma InsertedShape(f: Filter, key: Bytes)
    requires Valid(f)
    ensures Inserted(f, key).length == f.length && Inserted(f, key).seeds == f.seeds
  {
  }

  /** The index block, word by word. */
  method PlaceIndex(file: array<char>, entries: seq<Entry>)
    requires entries != [] && IndexSize(entries) < U64_LIMIT && IndexSize(entries) <= file.Length
    modifies file
    ensures Holds(file[..], 0, IndexImage(entries))
    ensures SameOutside(file[..], old(file[..]), 0, |IndexImage(entries)|)
  {
    hide U64, Holds, SameOutside;
    ghost var was := file[..];
    var n, key := IndexSize(entries), entries[0].key;
    assert was == was[..0] + [] + was[0..];
    Extend(file, 0, 0, U64(n), was, []);
    ghost var d1 := [] + U64(n);
    Extend(file, 0, 8, U64(1), was, d1);
    ghost var d2 := d1 + U64(1);
    Extend(file, 0, 16, U64(n), was, d2);
    ghost var d3 := d2 + U64(n);
    Extend(file, 0, 24, U64(|key|), was, d3);
    ghost var d4 := d3 + U64(|key|);
    Extend(file, 0, 32, key, was, d4);
    assert d4 + key == IndexImage(entries);
    Extended(file[..], was, 0, IndexImage(entries));
  }

  /** One entry: two sizes, then key and value. */
  method ExtendEntry(file: array<char>, start: nat, at: nat, e: Entry, ghost was: Bytes, ghost done: Bytes)
    requires |e.key| < U64_LIMIT && |e.value| < U64_LIMIT
    requires |was| == file.Length && start + |done| == at && at + |EntryImage(e)| <= file.Length
    requires file[..] == was[..start] + done + was[at..]
    modifies file
    ensures file[..] == was[..start] + (done + EntryImage(e)) + was[at + |EntryImage(e)|..]
  {
    hide U64;
    Extend(file, start, at, U64(|e.key|), was, done);
    ghost var d1 := done + U64(|e.key|);
    Extend(file, start, at + 8, U64(|e.value|), was, d1);
    ghost var d2 := d1 + U64(|e.value|);
    Extend(file, start, at + 16, e.key, was, d2);
    ghost var d3 := d2 + e.key;
    Extend(file, start, at + 16 + |e.key|, e.value, was, d3);
    EntryPieces(done, e);
  }

  lemma EntryPieces(done: Bytes, e: Entry)
    requires |e.key| < U64_LIMIT && |e.value| < U64_LIMIT
    ensures done + U64(|e.key|) + U64(|e.value|) + e.key + e.value == done + EntryImage(e)
  {
    hide U64;
  }

  /** Count and entries. */
  method PlaceBody(file: array<char>, at: nat, entries: seq<Entry>)
    requires Small(entries) && at + BodySize(entries) <= file.Length
    modifies file
    ensures Holds(file[..], at, Body(entries)) && SameOutside(file[..], old(file[..]), at, BodySize(entries))
  {
    hide U64, Holds, SameOutside, EntriesImage, EntryImage, ByteSize;
    ghost var was := file[..];
    assert was == was[..at] + [] + was[at..];
    Extend(file, at, at, U64(|entries|), was, []);
    ghost var head := U64(|entries|);
    assert [] + head == head;
    var index := at + 8;
    NoEntries();
    assert head + [] == head;
    for i := 0 to |entries|
      invariant SmallPrefix(entries, i)
      invariant index == at + 8 + |EntriesImage(entries[..i])|
      invariant |EntriesImage(entries[..i])| <= |EntriesImage(entries)|
      invariant file[..] == was[..at] + (head + EntriesImage(entries[..i])) + was[index..]
    {
      NextEntry(entries, i, head);
      ExtendEntry(file, at, index, entries[i], was, head + EntriesImage(entries[..i]));
      index := index + 16 + |entries[i].key| + |entries[i].value|;
    }
    assert entries[..|entries|] == entries;
    Extended(file[..], was, at, Body(entries));
  }

  predicate SmallPrefix(entries: seq<Entry>, i: nat) {
    i <= |entries| && Small(entries[..i])
  }

  lemma NoEntries()
    ensures EntriesImage([]) == []
  {
  }

  lemma NextEntry(entries: seq<Entry>, i: nat, head: Bytes)
    requires Small(entries) && i < |entries|
    ensures Small(entries[..i]) && Small(entries[..i + 1])
    ensures head + EntriesImage(entries[..i]) + EntryImage(entries[i]) == head + EntriesImage(entries[..i + 1])
    ensures |EntriesImage(entries[..i])| + |EntryImage(entries[i])|
         == |EntriesImage(entries[..i + 1])| <= |EntriesImage(entries)|
  {
    hide EntryImage;
    assert entries[..i + 1] == entries[..i] + [entries[i]];
    EntriesImageSnoc(entries[..i], entries[i]);
    assert entries == entries[..i + 1] + entries[i + 1..];
    ByteSizeConcat(entries[..i + 1], entries[i + 1..]);
  }

  /** The data block in the raw layout: its size, the filter, the body. */
  method PlaceRawBlock(file: array<char>, at: nat, filter: BloomFilter, entries: seq<Entry>)
    requires filter.Ready() && Modest(filter.Value()) && Small(entries)
    requires 8 + ImageSize(filter.Value()) + BodySize(entries) < U64_LIMIT
    requires at + 8 + ImageSize(filter.Value()) + BodySize(entries) <= file.Length
    modifies file
    ensures filter.Value() == old(filter.Value()) && RawBlock(file[..], at, entries, filter.Value())
    ensures SameOutside(file[..], old(file[..]), at, 8 + ImageSize(filter.Value()) + BodySize(entries))
  {
    hide Valid, Stored, Holds, Body, BodySize, ImageSize, U64, SameOutside;
    ghost var b0, f := file[..], filter.Value();
    var bloom := filter.BinarySize();
    var size := 8 + bloom + BodySize(entries);
    Place(file, at, U64(size));
    ghost var b1 := file[..];
    var used := filter.Save(file, at + 8);
    ghost var b2 := file[..];
    HoldsKept(b2, b1, at + 8, used, at, U64(size));
    PlaceBody(file, at + 8 + used, entries);
    ghost var b3 := file[..];
    HoldsKept(b3, b2, at + 8 + used, BodySize(entries), at, U64(size));
    StoredKept(b3, b2, at + 8 + used, BodySize(entries), at + 8, f);
    SameOutsideTwice(b1, b0, at, 8, b2, used);
    SameOutsideTwice(b2, b0, at, 8 + used, b3, BodySize(entries));
  }

  /** Two neighbouring writes. */
  lemma SameOutsideTwice(b: Bytes, was: Bytes, at: nat, size: nat, next: Bytes, more: nat)
    requires SameOutside(b, was, at, size) && SameOutside(next, b, at + size, more)
    ensures SameOutside(next, was, at, size + more)
  {
    assert next[..at] == next[..at + size][..at];
    assert b[..at + size][..at] == b[..at];
    var p := at + size + more;
    assert b[p..] == b[at + size..][more..] == was[at + size..][more..] == was[p..];
  }

  /** The SST constructors without compression: the file, and the object loaded
      from it, answer exactly as the entries do. */
  method CreateRaw(entries: seq<Entry>, c: real, random: nat -> nat, create: nat -> Option<Compressor>)
    returns (sst: SST, file: array<char>, ghost f: Filter)
    requires Buildable(entries, c) && Sorted(entries) && IndexSize(entries) < 0x8000_0000
    requires LosslessAll(create) && forall i :: random(i) < U64_LIMIT
    ensures FileOf(create, file[..], entries, f, Raw)
    ensures file.Length == IndexSize(entries) + 8 + ImageSize(f) + BodySize(entries)
    ensures fresh(file) && fresh(sst) && sst.Holding(entries)
  {
    hide Valid, LosslessAll, Sorted, AllMarked, BodySize, ImageSize, LengthFor, Stored, Body, IndexImage, Holds,
         SameOutside, InsertedAll, Cleared, KeysOf;
    BuildableSmall(entries);
    var filter := BuildFilter(entries, c, random);
    f := filter.Value();
    ImageBound(f);
    var bloom := filter.BinarySize();
    file := new char[IndexSize(entries) + 8 + bloom + BodySize(entries)];
    PlaceIndex(file, entries);
    ghost var b := file[..];
    PlaceRawBlock(file, IndexSize(entries), filter, entries);
    HoldsKept(file[..], b, IndexSize(entries), 8 + bloom + BodySize(entries), 0, IndexImage(entries));
    sst := Load(file, create, entries, f, Raw);
  }

  // ---- the encoded layout ----

  /** CompressionConfig. */
  datatype Config = Config(kind: nat, enable: bool, minSize: nat)

  predicate ShouldCompress(config: Config, size: nat) {
    config.enable && size >= config.minSize
  }

  /** Compression is asked for, the block is large enough for it, the compressor
      exists, and what it makes is not empty and shorter. */
  ghost predicate Packs(create: nat -> Option<Compressor>, config: Config, bloom: nat, entries: seq<Entry>)
    requires Small(entries)
  {
    && config.enable && HEADER_SIZE + bloom + BodySize(entries) >= config.minSize
    && create(config.kind).Some? && 0 < |create(config.kind).value.compress(Body(entries))| < BodySize(entries)
  }

  /** CompressedBlockBuilder::Add for all entries. */
  method RawData(entries: seq<Entry>) returns (raw: Bytes)
    requires Small(entries)
    ensures raw == EntriesImage(entries)
  {
    hide EntriesImage, EntryImage;
    raw := [];
    NoEntries();
    for i := 0 to |entries|
      invariant SmallPrefix(entries, i) && raw == EntriesImage(entries[..i])
    {
      NextEntry(entries, i, []);
      assert [] + EntriesImage(entries[..i]) == EntriesImage(entries[..i]);
      assert [] + EntriesImage(entries[..i + 1]) == EntriesImage(entries[..i + 1]);
      raw := raw + EntryImage(entries[i]);
    }
    assert entries[..|entries|] == entries;
  }

  /** Header, filter and coded body in a buffer of exactly their size. */
  method EncodePayload(filter: BloomFilter, compressed: bool, kind: nat, code: Bytes, ghost entries: seq<Entry>,
                       bodySize: nat)
    returns (payload: array<char>)
    requires filter.Ready() && Modest(filter.Value()) && Small(entries) && kind < 256
    requires bodySize == BodySize(entries) < U64_LIMIT
    ensures fresh(payload) && payload.Length == HEADER_SIZE + ImageSize(filter.Value()) + |code|
    ensures EncodedPayload(payload[..], 0, entries, filter.Value(), compressed, kind, code)
  {
    hide Valid, Stored, Holds, BodySize, ImageSize, U64, SameOutside, HeaderImage, Small;
    ghost var f := filter.Value();
    var bloom := filter.BinarySize();
    payload := new char[HEADER_SIZE + bloom + |code|];
    Place(payload, 0, HeaderImage(compressed, kind, bodySize));
    ghost var b1 := payload[..];
    var used := filter.Save(payload, HEADER_SIZE);
    ghost var b2 := payload[..];
    HoldsKept(b2, b1, HEADER_SIZE, used, 0, HeaderImage(compressed, kind, bodySize));
    Place(payload, HEADER_SIZE + used, code);
    ghost var b3 := payload[..];
    HoldsKept(b3, b2, HEADER_SIZE + used, |code|, 0, HeaderImage(compressed, kind, bodySize));
    StoredKept(b3, b2, HEADER_SIZE + used, |code|, HEADER_SIZE, f);
  }

  /** CompressedBlockBuilder::Build: compressed when it is asked for, possible
      and shorter. */
  method BuildPayload(entries: seq<Entry>, config: Config, filter: BloomFilter, create: nat -> Option<Compressor>)
    returns (payload: array<char>, ghost compressed: bool, ghost code: Bytes)
    requires filter.Ready() && Modest(filter.Value()) && Small(entries) && config.kind < 256
    requires BodySize(entries) < U64_LIMIT
    ensures fresh(payload) && payload.Length == HEADER_SIZE + ImageSize(filter.Value()) + |code|
    ensures EncodedPayload(payload[..], 0, entries, filter.Value(), compressed, config.kind, code)
    ensures Encodes(create, compressed, config.kind, Body(entries), code) && |code| <= BodySize(entries)
    ensures compressed <==> Packs(create, config, ImageSize(filter.Value()), entries)
  {
    hide Valid, EncodedPayload, BodySize, ImageSize, U64, EntriesImage;
    var raw := RawData(entries);
    var body := U64(|entries|) + raw;
    assert body == Body(entries);
    var bloom := filter.BinarySize();
    payload := EncodePayload(filter, false, config.kind, body, entries, |body|);
    compressed, code := false, body;
    if ShouldCompress(config, HEADER_SIZE + bloom + |body|) {
      var compressor := create(config.kind);
      if compressor.Some? {
        var packed := compressor.value.compress(body);
        if packed != [] && |packed| < |body| {
          payload := EncodePayload(filter, true, config.kind, packed, entries, |body|);
          compressed, code := true, packed;
        }
      }
    }
  }

  lemma PayloadCopied(create: nat -> Option<Compressor>, file: Bytes, at: nat, payload: Bytes, entries: seq<Entry>,
                      f: Filter,
                      compressed: bool, kind: nat, code: Bytes)
    requires Small(entries) && EncodedPayload(payload, 0, entries, f, compressed, kind, code)
    requires Encodes(create, compressed, kind, Body(entries), code)
    requires |payload| == HEADER_SIZE + ImageSize(f) + |code| && 8 + |payload| < U64_LIMIT
    requires Holds(file, at, U64(8 + |payload|)) && Holds(file, at + 8, payload)
    ensures EncodedBlock(create, file, at, entries, f, compressed, kind, code)
  {
    hide Valid, Stored, Holds, BodySize, ImageSize, U64, HeaderImage, Small, Encodes, Body;
    HoldsCopied(file, at + 8, payload, 0, HeaderImage(compressed, kind, BodySize(entries)));
    StoredCopied(file, at + 8, payload, HEADER_SIZE, f);
    HoldsCopied(file, at + 8, payload, HEADER_SIZE + ImageSize(f), code);
  }

  /** The SST constructors with a compression config. */
  method CreateEncoded(entries: seq<Entry>, config: Config, c: real, random: nat -> nat,
                       create: nat -> Option<Compressor>)
    returns (sst: SST, file: array<char>, ghost f: Filter, ghost layout: Layout)
    requires Buildable(entries, c) && Sorted(entries) && IndexSize(entries) < 0x8000_0000 && config.kind < 256
    requires LosslessAll(create) && forall i :: random(i) < U64_LIMIT
    ensures layout.Encoded? && FileOf(create, file[..], entries, f, layout)
    ensures file.Length == IndexSize(entries) + 8 + HEADER_SIZE + ImageSize(f) + |layout.code|
    ensures Small(entries) && (layout.compressed <==> Packs(create, config, ImageSize(f), entries))
    ensures fresh(file) && fresh(sst) && sst.Holding(entries)
  {
    hide Valid, LosslessAll, Sorted, AllMarked, BodySize, ImageSize, LengthFor, Body, IndexImage, Holds, SameOutside,
         EncodedPayload, EncodedBlock, Encodes, U64, Packs, InsertedAll, Cleared;
    BuildableSmall(entries);
    var filter := BuildFilter(entries, c, random);
    f := filter.Value();
    ImageBound(f);
    var payload, compressed, code := BuildPayload(entries, config, filter, create);
    layout := Encoded(compressed, config.kind, code);
    var n := IndexSize(entries);
    file := new char[n + 8 + payload.Length];
    PlaceIndex(file, entries);
    ghost var b1 := file[..];
    var size := U64(8 + payload.Length);
    Place(file, n, size);
    ghost var b2 := file[..];
    HoldsKept(b2, b1, n, 8, 0, IndexImage(entries));
    Place(file, n + 8, payload[..]);
    ghost var b3 := file[..];
    HoldsKept(b3, b2, n + 8, payload.Length, 0, IndexImage(entries));
    HoldsKept(b3, b2, n + 8, payload.Length, n, size);
    PayloadCopied(create, b3, n, payload[..], entries, f, compressed, config.kind, code);
    sst := Load(file, create, entries, f, layout);
  }
}
