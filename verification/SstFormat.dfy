/** The bytes of an SST file: an index block with one entry, then one data block
    in the raw or the encoded layout. */
module SstFormat {
  import opened ByteOrder
  import opened Runs
  import opened Words
  import opened Bloom

  // ---- entries ----

  predicate Small(entries: seq<Entry>) {
    |entries| < U64_LIMIT
    && forall i :: 0 <= i < |entries| ==> |entries[i].key| < U64_LIMIT && |entries[i].value| < U64_LIMIT
  }

  function EntryImage(e: Entry): (b: Bytes)
    requires |e.key| < U64_LIMIT && |e.value| < U64_LIMIT
    ensures |b| == 16 + |e.key| + |e.value|
  {
    U64(|e.key|) + U64(|e.value|) + e.key + e.value
  }

  function EntriesImage(entries: seq<Entry>): (b: Bytes)
    requires Small(entries)
    ensures |b| == ByteSize(entries) + 16 * |entries|
  {
    if entries == [] then [] else EntryImage(entries[0]) + EntriesImage(entries[1..])
  }

  lemma {:induction false} EntriesImageSnoc(entries: seq<Entry>, e: Entry)
    requires Small(entries + [e])
    ensures Small(entries) && |e.key| < U64_LIMIT && |e.value| < U64_LIMIT
    ensures EntriesImage(entries + [e]) == EntriesImage(entries) + EntryImage(e)
  {
    hide EntryImage, ByteSize;
    assert (entries + [e])[|entries|] == e;
    assert forall i :: 0 <= i < |entries| ==> (entries + [e])[i] == entries[i];
    if entries == [] {
      assert [e][1..] == [] && [] + [e] == [e];
    } else {
      assert (entries + [e])[1..] == entries[1..] + [e];
      EntriesImageSnoc(entries[1..], e);
    }
  }

  /** Count and entries. */
  function Body(entries: seq<Entry>): (b: Bytes)
    requires Small(entries)
    ensures |b| == BodySize(entries)
  {
    U64(|entries|) + EntriesImage(entries)
  }

  function BodySize(entries: seq<Entry>): nat {
    8 + ByteSize(entries) + 16 * |entries|
  }

  /** The record fits into the block. */
  predicate Fitting(at: nat, keySize: nat, valueSize: nat, size: nat) {
    at + (16 + keySize + valueSize) <= size
  }

  /** The same test as the code makes it, with sums modulo 2^64. */
  predicate FittingModulo(at: nat, keySize: nat, valueSize: nat, size: nat) {
    (at + (16 + keySize + valueSize) % U64_LIMIT) % U64_LIMIT <= size
  }

  /** The two agree exactly when the sum does not wrap, or wraps to something
      that does not fit either. */
  lemma FittingModuloIff(at: nat, keySize: nat, valueSize: nat, size: nat)
    requires size < U64_LIMIT
    ensures (FittingModulo(at, keySize, valueSize, size) <==> Fitting(at, keySize, valueSize, size))
       <==> (at + 16 + keySize + valueSize < U64_LIMIT || (at + 16 + keySize + valueSize) % U64_LIMIT > size)
  {
    var n := 16 + keySize + valueSize;
    assert (at + n % U64_LIMIT) % U64_LIMIT == (at + n) % U64_LIMIT by {
      assert n == n / U64_LIMIT * U64_LIMIT + n % U64_LIMIT;
      ModuloShift(at + n % U64_LIMIT, n / U64_LIMIT);
    }
  }

  lemma {:induction false} ModuloShift(a: nat, q: nat)
    ensures (a + q * U64_LIMIT) % U64_LIMIT == a % U64_LIMIT
  {
    if q > 0 { ModuloShift(a, q - 1); }
  }

  /** A record that no block can hold and the code accepts. */
  lemma WrappingRecord(size: nat)
    requires 8 <= size < U64_LIMIT
    ensures FittingModulo(8, U64_LIMIT - 16, 0, size) && !Fitting(8, U64_LIMIT - 16, 0, size)
  {
  }

  /** ParseEntries from a position on; None where a bound is violated. */
  function ParsedFrom(b: Bytes, at: nat, count: nat): Option<seq<Entry>>
    decreases count
  {
    if count == 0 then Some([])
    else if at + 16 > |b| then None
    else
      var k, v := ReadU64(b, at), ReadU64(b, at + 8);
      if !Fitting(at, k, v, |b|) then None
      else
        var e := Entry(b[at + 16..at + 16 + k], b[at + 16 + k..at + 16 + k + v]);
        var rest := ParsedFrom(b, at + 16 + k + v, count - 1);
        if rest.None? then None else Some([e] + rest.value)
  }

  function Parsed(b: Bytes): seq<Entry> {
    if |b| < 8 then []
    else
      var r := ParsedFrom(b, 8, ReadU64(b, 0));
      if r.None? then [] else r.value
  }

  lemma EntryReadBack(b: Bytes, at: nat, e: Entry)
    requires |e.key| < U64_LIMIT && |e.value| < U64_LIMIT && Holds(b, at, EntryImage(e))
    ensures at + 16 + |e.key| + |e.value| <= |b|
    ensures ReadU64(b, at) == |e.key| && ReadU64(b, at + 8) == |e.value|
    ensures b[at + 16..at + 16 + |e.key|] == e.key
    ensures b[at + 16 + |e.key|..at + 16 + |e.key| + |e.value|] == e.value
  {
    hide U64, ReadU64;
    var k, v := U64(|e.key|), U64(|e.value|);
    HoldsParts(b, at, k + v + e.key, e.value);
    HoldsParts(b, at, k + v, e.key);
    HoldsParts(b, at, k, v);
    ReadBack64(b, at, |e.key|);
    ReadBack64(b, at + 8, |e.value|);
  }

  lemma {:induction false} EntriesReadBack(b: Bytes, at: nat, entries: seq<Entry>)
    requires Small(entries) && Holds(b, at, EntriesImage(entries))
    ensures ParsedFrom(b, at, |entries|) == Some(entries)
    decreases |entries|
  {
    hide EntryImage, Holds, EntriesImage, Small, ParsedFrom, ByteSize;
    if entries == [] {
      ParsedNone(b, at);
    } else {
      var e, rest := entries[0], entries[1..];
      ImageFirst(entries);
      HoldsParts(b, at, EntryImage(e), EntriesImage(rest));
      EntriesReadBack(b, at + |EntryImage(e)|, rest);
      OneReadBack(b, at, e, rest);
      assert entries == [e] + rest;
    }
  }

  lemma ParsedNone(b: Bytes, at: nat)
    ensures ParsedFrom(b, at, 0) == Some([])
  {
  }

  lemma ImageFirst(entries: seq<Entry>)
    requires Small(entries) && entries != []
    ensures Small(entries[1..]) && |entries[0].key| < U64_LIMIT && |entries[0].value| < U64_LIMIT
    ensures EntriesImage(entries) == EntryImage(entries[0]) + EntriesImage(entries[1..])
  {
    hide EntryImage;
  }

  lemma OneReadBack(b: Bytes, at: nat, e: Entry, rest: seq<Entry>)
    requires |e.key| < U64_LIMIT && |e.value| < U64_LIMIT && Holds(b, at, EntryImage(e))
    requires ParsedFrom(b, at + 16 + |e.key| + |e.value|, |rest|) == Some(rest)
    ensures ParsedFrom(b, at, |rest| + 1) == Some([e] + rest)
  {
    hide EntryImage, Holds, ReadU64, ParsedFrom;
    EntryReadBack(b, at, e);
    ParsedNext(b, at, |e.key|, |e.value|, |rest|);
  }

  lemma ParsedNext(b: Bytes, at: nat, k: nat, v: nat, count: nat)
    requires at + 16 + k + v <= |b| && ReadU64(b, at) == k && ReadU64(b, at + 8) == v
    ensures var rest := ParsedFrom(b, at + 16 + k + v, count);
            var e := Entry(b[at + 16..at + 16 + k], b[at + 16 + k..at + 16 + k + v]);
            ParsedFrom(b, at, count + 1) == if rest.None? then None else Some([e] + rest.value)
  {
    hide ReadU64;
  }

  /** Parsing inverts writing. */
  lemma BodyRoundTrip(entries: seq<Entry>)
    requires Small(entries)
    ensures Parsed(Body(entries)) == entries
  {
    hide U64, EntriesImage, ParsedFrom, ReadU64;
    var b := Body(entries);
    assert b[0..|b|] == b;
    HoldsParts(b, 0, U64(|entries|), EntriesImage(entries));
    ReadBack64(b, 0, |entries|);
    EntriesReadBack(b, 8, entries);
  }

  /** What is parsed has the number of entries that was asked for, and fits. */
  lemma {:induction false} ParsedFits(b: Bytes, at: nat, count: nat)
    requires at <= |b|
    ensures var r := ParsedFrom(b, at, count);
            r.Some? ==> |r.value| == count && at + 16 * count + ByteSize(r.value) <= |b|
    decreases count
  {
    hide ReadU64;
    if count > 0 && at + 16 <= |b| {
      var k, v := ReadU64(b, at), ReadU64(b, at + 8);
      if Fitting(at, k, v, |b|) {
        ParsedFits(b, at + 16 + k + v, count - 1);
        var rest := ParsedFrom(b, at + 16 + k + v, count - 1);
        if rest.Some? {
          var e := Entry(b[at + 16..at + 16 + k], b[at + 16 + k..at + 16 + k + v]);
          assert ([e] + rest.value)[1..] == rest.value;
        }
      }
    }
  }

  /** What is parsed from the front of a text is parsed from the text. */
  lemma {:induction false} ParsedFromFront(b: Bytes, m: nat, at: nat, count: nat)
    requires m <= |b|
    ensures ParsedFrom(b[..m], at, count).Some? ==> ParsedFrom(b, at, count) == ParsedFrom(b[..m], at, count)
    decreases count
  {
    hide ReadU64;
    if count > 0 && at + 16 <= m {
      var c := b[..m];
      ReadInFront(b, m, at);
      ReadInFront(b, m, at + 8);
      var k, v := ReadU64(c, at), ReadU64(c, at + 8);
      if Fitting(at, k, v, m) {
        assert c[at + 16..at + 16 + k] == b[at + 16..at + 16 + k];
        assert c[at + 16 + k..at + 16 + k + v] == b[at + 16 + k..at + 16 + k + v];
        ParsedFromFront(b, m, at + 16 + k + v, count - 1);
      }
    }
  }

  lemma ReadInFront(b: Bytes, m: nat, at: nat)
    requires at + 8 <= m <= |b|
    ensures ReadU64(b[..m], at) == ReadU64(b, at)
  {
    assert b[..m][at..at + 8] == b[at..at + 8];
  }

  /** A parse is all or nothing: on any bytes it gives as many entries as the count
      says, all within the block, or none. */
  lemma ParsedAllOrNothing(b: Bytes)
    ensures Parsed(b) != [] ==>
              |b| >= 8 && |Parsed(b)| == ReadU64(b, 0) && 8 + 16 * |Parsed(b)| + ByteSize(Parsed(b)) <= |b|
  {
    hide ReadU64, ByteSize, ParsedFrom;
    if |b| >= 8 { ParsedFits(b, 8, ReadU64(b, 0)); }
  }

  /** So nothing is read from a block that was cut short. */
  lemma TruncatedIsEmpty(entries: seq<Entry>, m: nat)
    requires Small(entries) && m < |Body(entries)|
    ensures Parsed(Body(entries)[..m]) == []
  {
    hide ReadU64, ByteSize, ParsedFrom, Body;
    var b := Body(entries);
    var c := b[..m];
    if Parsed(c) != [] {
      ParsedAllOrNothing(c);
      ReadInFront(b, m, 0);
      ParsedFromFront(b, m, 8, ReadU64(b, 0));
      BodyRoundTrip(entries);
      BodyLength(entries);
    }
  }

  lemma BodyLength(entries: seq<Entry>)
    requires Small(entries)
    ensures |Body(entries)| == 8 + 16 * |entries| + ByteSize(entries)
  {
  }

  /** The parser's loop, on any bytes. */
  method ParseEntries(b: Bytes) returns (entries: seq<Entry>)
    ensures entries == Parsed(b)
  {
    hide ReadU64;
    entries := [];
    if |b| < 8 {
      return;
    }
    var size := ReadU64(b, 0);
    var index: nat := 8;
    ContinueNothing(ParsedFrom(b, 8, size));
    for i := 0 to size
      invariant Continue(entries, ParsedFrom(b, index, size - i)) == ParsedFrom(b, 8, size)
    {
      if index + 16 > |b| {
        return [];
      }
      var k, v := ReadU64(b, index), ReadU64(b, index + 8);
      if !Fitting(index, k, v, |b|) {
        return [];
      }
      var e := Entry(b[index + 16..index + 16 + k], b[index + 16 + k..index + 16 + k + v]);
      ContinueOne(entries, e, ParsedFrom(b, index + 16 + k + v, size - i - 1));
      entries := entries + [e];
      index := index + 16 + k + v;
    }
  }

  function Continue(done: seq<Entry>, rest: Option<seq<Entry>>): Option<seq<Entry>> {
    if rest.None? then None else Some(done + rest.value)
  }

  lemma ContinueNothing(rest: Option<seq<Entry>>)
    ensures Continue([], rest) == rest
  {
    if rest.Some? {
      assert [] + rest.value == rest.value;
    }
  }

  lemma ContinueOne(done: seq<Entry>, e: Entry, rest: Option<seq<Entry>>)
    ensures Continue(done + [e], rest) == Continue(done, if rest.None? then None else Some([e] + rest.value))
  {
    if rest.Some? {
      assert done + [e] + rest.value == done + ([e] + rest.value);
    }
  }

  // ---- the index block ----

  function IndexSize(entries: seq<Entry>): nat
    requires entries != []
  {
    16 * (|entries| + 1) + |entries[0].key|
  }

  /** What is written of the index block; the rest of it is never read. */
  function IndexImage(entries: seq<Entry>): (b: Bytes)
    requires entries != [] && IndexSize(entries) < U64_LIMIT
    ensures |b| == 32 + |entries[0].key| <= IndexSize(entries)
  {
    U64(IndexSize(entries)) + U64(1) + U64(IndexSize(entries)) + U64(|entries[0].key|) + entries[0].key
  }

  /** Passing a size_t as int32_t and widening it again; -1 means "not given"
      and leaves the offset at 0. */
  function ThroughInt32(offset: nat): nat {
    var low := offset % U32_LIMIT;
    if low == U32_LIMIT - 1 then 0
    else if low < 0x8000_0000 then low
    else U64_LIMIT - U32_LIMIT + low
  }

  /** The offset survives exactly below 2^31. */
  lemma OffsetExactIff(offset: nat)
    requires offset < 0x8000_0000_0000_0000
    ensures ThroughInt32(offset) == offset <==> offset < 0x8000_0000
  {
  }

  // ---- data blocks ----

  const MAGIC: nat := 0x564b4f4d
  const VERSION: nat := 1
  const HEADER_SIZE: nat := 16

  /** A filter as Init leaves it has between 1 and 16 seeds. */
  ghost predicate Modest(f: Filter) {
    Valid(f) && 1 <= |f.seeds| <= 16
  }

  ghost predicate RawBlock(file: Bytes, at: nat, entries: seq<Entry>, f: Filter) {
    var size := 8 + ImageSize(f) + BodySize(entries);
    && Modest(f) && Small(entries) && size < U64_LIMIT
    && Holds(file, at, U64(size))
    && Stored(file, at + 8, f)
    && Holds(file, at + 8 + ImageSize(f), Body(entries))
  }

  function HeaderImage(compressed: bool, kind: nat, bodySize: nat): (b: Bytes)
    requires kind < 256 && bodySize < U64_LIMIT
    ensures |b| == HEADER_SIZE
  {
    U32(MAGIC) + [VERSION as char, if compressed then 1 as char else 0 as char, kind as char, 0 as char] + U64(bodySize)
  }

  datatype Compressor = Compressor(compress: Bytes -> Bytes, decompress: Bytes -> Bytes)

  ghost predicate Lossless(c: Compressor) {
    forall b: Bytes :: c.compress(b) != [] ==> c.decompress(c.compress(b)) == b
  }

  /** CompressionFactory, every compressor in it assumed lossless. */
  ghost predicate LosslessAll(create: nat -> Option<Compressor>) {
    forall kind: nat :: create(kind).Some? ==> Lossless(create(kind).value)
  }

  /** How the body stands in an encoded block. */
  ghost predicate Encodes(create: nat -> Option<Compressor>, compressed: bool, kind: nat, body: Bytes, code: Bytes) {
    if compressed then create(kind).Some? && code != [] && code == create(kind).value.compress(body)
    else code == body
  }

  ghost predicate EncodedPayload(file: Bytes, at: nat, entries: seq<Entry>, f: Filter,
                                 compressed: bool, kind: nat, code: Bytes) {
    && Modest(f) && Small(entries) && kind < 256 && BodySize(entries) < U64_LIMIT
    && Holds(file, at, HeaderImage(compressed, kind, BodySize(entries)))
    && Stored(file, at + HEADER_SIZE, f)
    && Holds(file, at + HEADER_SIZE + ImageSize(f), code)
  }

  ghost predicate EncodedBlock(create: nat -> Option<Compressor>, file: Bytes, at: nat, entries: seq<Entry>, f: Filter,
                               compressed: bool, kind: nat, code: Bytes) {
    var size := 8 + HEADER_SIZE + ImageSize(f) + |code|;
    && size < U64_LIMIT && Holds(file, at, U64(size))
    && EncodedPayload(file, at + 8, entries, f, compressed, kind, code)
    && Small(entries) && Encodes(create, compressed, kind, Body(entries), code)
  }

  /** IsEncodedBlock. */
  predicate LooksEncoded(file: Bytes, payload: nat, size: nat)
    requires size >= HEADER_SIZE ==> payload + 4 <= |file|
  {
    size >= HEADER_SIZE && ReadU32(file, payload) == MAGIC
  }

  lemma {:induction false} EncodePrefix(n: nat, v: nat, w: nat)
    requires v <= w
    ensures Encode(n, w)[..v] == Encode(n, v)
    decreases w
  {
    if v > 0 {
      EncodePrefix(n / 256, v - 1, w - 1);
      assert Encode(n, w)[..v] == [(n % 256) as char] + Encode(n / 256, w - 1)[..v - 1];
    }
  }

  /** A raw block is never taken for an encoded one: its first word counts hash
      functions, of which there are at most 16. */
  lemma RawIsNotEncoded(file: Bytes, at: nat, entries: seq<Entry>, f: Filter, size: nat)
    requires RawBlock(file, at, entries, f)
    ensures at + 12 <= |file| && !LooksEncoded(file, at + 8, size)
  {
    var n := |f.seeds|;
    HoldsParts(file, at + 8, U64(n) + U64(f.length), WordsBytes(f.seeds));
    HoldsParts(file, at + 8, U64(n), U64(f.length));
    EncodePrefix(n, 4, 8);
    assert U64(n) == U32(n) + U64(n)[4..];
    HoldsParts(file, at + 8, U32(n), U64(n)[4..]);
    ReadBack32(file, at + 8, n);
  }

  /** An encoded block is recognised. */
  lemma EncodedIsRecognised(file: Bytes, at: nat, compressed: bool, kind: nat, bodySize: nat)
    requires kind < 256 && bodySize < U64_LIMIT && Holds(file, at, HeaderImage(compressed, kind, bodySize))
    ensures at + 16 <= |file| && ReadU32(file, at) == MAGIC && ReadU64(file, at + 8) == bodySize
    ensures file[at + 4] == VERSION as char && file[at + 6] == kind as char
    ensures file[at + 5] == if compressed then 1 as char else 0 as char
  {
    hide U64, U32, ReadU64, ReadU32;
    var mid := [VERSION as char, if compressed then 1 as char else 0 as char, kind as char, 0 as char];
    HoldsParts(file, at, U32(MAGIC) + mid, U64(bodySize));
    HoldsParts(file, at, U32(MAGIC), mid);
    ReadBack32(file, at, MAGIC);
    ReadBack64(file, at + 8, bodySize);
    assert file[at + 4..at + 8] == mid;
    assert file[at + 4] == mid[0] && file[at + 5] == mid[1] && file[at + 6] == mid[2];
  }
}
