/** The Bloom filter: a bit array in 64-bit words, seeded polynomial hashes, and
    its byte image. */
module Bloom {
  import opened ByteOrder
  import opened Words
  import opened Buffers

  // ---- bits of a word ----

  function Bit(x: nat, i: nat): bool
    decreases i
  {
    if i == 0 then x % 2 == 1 else Bit(x / 2, i - 1)
  }

  /** x | (1 << i). */
  function SetBit(x: nat, i: nat): nat
    decreases i
  {
    if i == 0 then (if x % 2 == 1 then x else x + 1) else 2 * SetBit(x / 2, i - 1) + x % 2
  }

  function Pow2(n: nat): (p: nat)
    ensures p > 0
  {
    if n == 0 then 1 else 2 * Pow2(n - 1)
  }

  lemma {:induction false} BitOfSetBit(x: nat, i: nat, j: nat)
    ensures Bit(SetBit(x, i), j) <==> i == j || Bit(x, j)
    decreases i
  {
    var y := SetBit(x, i);
    if i == 0 {
      assert y / 2 == x / 2 && y % 2 == 1;
    } else {
      assert y / 2 == SetBit(x / 2, i - 1) && y % 2 == x % 2;
      if j > 0 { BitOfSetBit(x / 2, i - 1, j - 1); }
    }
  }

  lemma {:induction false} SetBitFits(x: nat, i: nat, w: nat)
    requires x < Pow2(w) && i < w
    ensures SetBit(x, i) < Pow2(w)
    decreases i
  {
    if i > 0 {
      assert x / 2 < Pow2(w - 1);
      SetBitFits(x / 2, i - 1, w - 1);
    } else {
      assert Pow2(w) % 2 == 0;
    }
  }

  lemma WordLimit()
    ensures Pow2(64) == U64_LIMIT
  {
    assert Pow2(8) == 0x100 && Pow2(16) == 0x1_0000 && Pow2(24) == 0x100_0000;
    assert Pow2(32) == 0x1_0000_0000 && Pow2(40) == 0x100_0000_0000;
    assert Pow2(48) == 0x1_0000_0000_0000 && Pow2(56) == 0x100_0000_0000_0000;
  }

  // ---- the filter as a value ----

  datatype Filter = Filter(length: nat, seeds: seq<nat>, words: seq<nat>)

  predicate Fits(words: seq<nat>) {
    forall i :: 0 <= i < |words| ==> words[i] < U64_LIMIT
  }

  ghost predicate Valid(f: Filter) {
    && 1 <= f.length < U64_LIMIT && |f.seeds| < U64_LIMIT && Fits(f.seeds)
    && |f.words| == f.length / 64 + 1 && Fits(f.words)
  }

  /** A char is signed: widening it to size_t extends the sign. */
  function Widened(ch: char): nat {
    if ch as nat < 128 then ch as nat else (U64_LIMIT - 256 + ch as nat) % U64_LIMIT
  }

  /** CalcHash over the first n characters, modulo 2^64. */
  function HashPrefix(key: Bytes, n: nat, seed: nat): (h: nat)
    requires n <= |key|
    ensures h < U64_LIMIT
  {
    if n == 0 then 0 else (HashPrefix(key, n - 1, seed) * seed % U64_LIMIT + Widened(key[n - 1])) % U64_LIMIT
  }

  function Hash(key: Bytes, seed: nat): nat {
    HashPrefix(key, |key|, seed)
  }

  lemma {:induction false} HashOfPrefix(a: Bytes, b: Bytes, n: nat, seed: nat)
    requires n <= |a| && n <= |b| && a[..n] == b[..n]
    ensures HashPrefix(a, n, seed) == HashPrefix(b, n, seed)
  {
    if n > 0 {
      assert a[..n][n - 1] == b[..n][n - 1];
      assert a[..n - 1] == a[..n][..n - 1] && b[..n - 1] == b[..n][..n - 1];
      HashOfPrefix(a, b, n - 1, seed);
    }
  }

  /** The hash is the polynomial in the seed, modulo 2^64: these two equations leave
      no other function. */
  lemma HashLaw(key: Bytes, ch: char, seed: nat)
    ensures Hash([], seed) == 0
    ensures Hash(key + [ch], seed) == (Hash(key, seed) * seed + Widened(ch)) % U64_LIMIT
  {
    hide Widened;
    var longer := key + [ch];
    assert longer[..|key|] == key[..|key|];
    HashOfPrefix(longer, key, |key|, seed);
    SumOfRemainder(Hash(key, seed) * seed, Widened(ch));
  }

  lemma SumOfRemainder(x: nat, y: nat)
    ensures (x % U64_LIMIT + y) % U64_LIMIT == (x + y) % U64_LIMIT
  {
  }

  /** Characters are signed bytes. */
  lemma WidenedLaw(ch: char)
    requires ch as nat < 256
    ensures Widened(ch) < U64_LIMIT
    ensures (Widened(ch) + 128) % U64_LIMIT == (ch as nat + 128) % 256
  {
  }

  method CalcHash(key: Bytes, seed: nat) returns (h: nat)
    ensures h == Hash(key, seed)
  {
    h := 0;
    for i := 0 to |key|
      invariant h == HashPrefix(key, i, seed)
    {
      h := h * seed % U64_LIMIT;
      h := (h + Widened(key[i])) % U64_LIMIT;
    }
  }

  function Index(f: Filter, key: Bytes, seed: nat): (i: nat)
    requires f.length > 0
    ensures i < f.length
  {
    Hash(key, seed) % f.length
  }

  predicate BitAt(words: seq<nat>, i: nat)
    requires i / 64 < |words|
  {
    Bit(words[i / 64], i % 64)
  }

  /** What Check asks: all bits of a key are set. */
  ghost predicate Marked(f: Filter, key: Bytes)
    requires Valid(f)
  {
    forall j :: 0 <= j < |f.seeds| ==> BitAt(f.words, Index(f, key, f.seeds[j]))
  }

  /** Setting one bit sets that bit and clears none. */
  lemma SetOne(words: seq<nat>, i: nat, k: nat)
    requires i / 64 < |words| && k / 64 < |words|
    ensures BitAt(words[i / 64 := SetBit(words[i / 64], i % 64)], k) <==> i == k || BitAt(words, k)
  {
    hide Bit, SetBit;
    BitOfSetBit(words[i / 64], i % 64, k % 64);
    assert i == k <==> i / 64 == k / 64 && i % 64 == k % 64 by {
      assert i == 64 * (i / 64) + i % 64 && k == 64 * (k / 64) + k % 64;
    }
  }

  /** The words after the first n seeds of a key have been set. */
  function SetSeeds(f: Filter, key: Bytes, n: nat): (words: seq<nat>)
    requires f.length > 0 && |f.words| == f.length / 64 + 1 && n <= |f.seeds|
    ensures |words| == |f.words|
  {
    if n == 0 then f.words
    else
      var words := SetSeeds(f, key, n - 1);
      var i := Index(f, key, f.seeds[n - 1]);
      words[i / 64 := SetBit(words[i / 64], i % 64)]
  }

  function Inserted(f: Filter, key: Bytes): Filter
    requires f.length > 0 && |f.words| == f.length / 64 + 1
  {
    f.(words := SetSeeds(f, key, |f.seeds|))
  }

  lemma {:induction false} SetSeedsBits(f: Filter, key: Bytes, n: nat, k: nat)
    requires Valid(f) && n <= |f.seeds| && k < f.length
    ensures BitAt(SetSeeds(f, key, n), k)
       <==> BitAt(f.words, k) || exists j :: 0 <= j < n && Index(f, key, f.seeds[j]) == k
  {
    if n > 0 {
      hide Bit, SetBit, Hash;
      SetSeedsBits(f, key, n - 1, k);
      SetOne(SetSeeds(f, key, n - 1), Index(f, key, f.seeds[n - 1]), k);
      assert (exists j :: 0 <= j < n && Index(f, key, f.seeds[j]) == k)
        <==> Index(f, key, f.seeds[n - 1]) == k || exists j :: 0 <= j < n - 1 && Index(f, key, f.seeds[j]) == k;
    }
  }

  lemma {:induction false} SetSeedsFit(f: Filter, key: Bytes, n: nat)
    requires Valid(f) && n <= |f.seeds|
    ensures Fits(SetSeeds(f, key, n))
  {
    if n > 0 {
      hide SetBit, Hash, Pow2;
      SetSeedsFit(f, key, n - 1);
      WordLimit();
      var i := Index(f, key, f.seeds[n - 1]);
      SetBitFits(SetSeeds(f, key, n - 1)[i / 64], i % 64, 64);
    }
  }

  /** Insert marks its key and unmarks none. */
  lemma InsertMarks(f: Filter, key: Bytes, other: Bytes)
    requires Valid(f)
    ensures Valid(Inserted(f, key)) && Marked(Inserted(f, key), key)
    ensures Marked(f, other) ==> Marked(Inserted(f, key), other)
  {
    hide Bit, SetBit, Hash;
    var g := Inserted(f, key);
    SetSeedsFit(f, key, |f.seeds|);
    forall j | 0 <= j < |f.seeds| ensures BitAt(g.words, Index(g, key, f.seeds[j])) {
      SetSeedsBits(f, key, |f.seeds|, Index(f, key, f.seeds[j]));
    }
    if Marked(f, other) {
      forall j | 0 <= j < |f.seeds| ensures BitAt(g.words, Index(g, other, f.seeds[j])) {
        SetSeedsBits(f, key, |f.seeds|, Index(f, other, f.seeds[j]));
      }
    }
  }

  function InsertedAll(f: Filter, keys: seq<Bytes>): (g: Filter)
    requires f.length > 0 && |f.words| == f.length / 64 + 1
    ensures g.length == f.length && g.seeds == f.seeds && |g.words| == |f.words|
  {
    if keys == [] then f else Inserted(InsertedAll(f, keys[..|keys| - 1]), keys[|keys| - 1])
  }

  /** No false negatives: every inserted key passes the check. */
  lemma {:induction false} InsertedAllMarks(f: Filter, keys: seq<Bytes>)
    requires Valid(f)
    ensures Valid(InsertedAll(f, keys))
    ensures forall i :: 0 <= i < |keys| ==> Marked(InsertedAll(f, keys), keys[i])
  {
    if keys != [] {
      hide Valid, Marked, Inserted;
      var last := keys[|keys| - 1];
      var g := InsertedAll(f, keys[..|keys| - 1]);
      InsertedAllMarks(f, keys[..|keys| - 1]);
      InsertMarks(g, last, last);
      forall i | 0 <= i < |keys| - 1 ensures Marked(Inserted(g, last), keys[i]) {
        assert keys[..|keys| - 1][i] == keys[i];
        InsertMarks(g, last, keys[i]);
      }
    }
  }

  /** The key has this index. */
  ghost predicate Uses(f: Filter, key: Bytes, k: nat)
    requires f.length > 0
  {
    exists j :: 0 <= j < |f.seeds| && Index(f, key, f.seeds[j]) == k
  }

  ghost predicate AnyUses(f: Filter, keys: seq<Bytes>, k: nat)
    requires f.length > 0
  {
    exists i :: 0 <= i < |keys| && Uses(f, keys[i], k)
  }

  lemma InsertedBits(f: Filter, g: Filter, key: Bytes, k: nat)
    requires Valid(g) && g.length == f.length && g.seeds == f.seeds && k < f.length
    ensures BitAt(Inserted(g, key).words, k) <==> BitAt(g.words, k) || Uses(f, key, k)
  {
    hide Bit, SetBit, Hash, SetSeeds, BitAt;
    SetSeedsBits(g, key, |g.seeds|, k);
    assert forall j :: 0 <= j < |f.seeds| ==> Index(g, key, f.seeds[j]) == Index(f, key, f.seeds[j]);
  }

  /** The bits that are set are exactly those of the inserted keys. */
  lemma {:induction false} InsertedAllBits(f: Filter, keys: seq<Bytes>, k: nat)
    requires Valid(f) && k < f.length
    ensures BitAt(InsertedAll(f, keys).words, k) <==> BitAt(f.words, k) || AnyUses(f, keys, k)
  {
    if keys != [] {
      hide Marked, BitAt, Uses, Inserted;
      var n := |keys| - 1;
      var g := InsertedAll(f, keys[..n]);
      InsertedAllMarks(f, keys[..n]);
      InsertedAllBits(f, keys[..n], k);
      InsertedBits(f, g, keys[n], k);
      assert forall i :: 0 <= i < n ==> keys[..n][i] == keys[i];
    }
  }

  lemma {:induction false} ZeroBit(i: nat)
    ensures !Bit(0, i)
    decreases i
  {
    if i > 0 { ZeroBit(i - 1); }
  }

  /** After any inserts into an empty filter, a key passes the check if and only
      if each of its indices is an index of some inserted key. */
  lemma MarkedIff(f: Filter, keys: seq<Bytes>, key: Bytes)
    requires Valid(f) && forall i :: 0 <= i < |f.words| ==> f.words[i] == 0
    ensures Valid(InsertedAll(f, keys))
    ensures Marked(InsertedAll(f, keys), key)
       <==> forall j :: 0 <= j < |f.seeds| ==> AnyUses(f, keys, Index(f, key, f.seeds[j]))
  {
    hide Bit, Hash, AnyUses, Inserted;
    var g := InsertedAll(f, keys);
    InsertedAllMarks(f, keys);
    forall j | 0 <= j < |f.seeds|
      ensures Index(g, key, f.seeds[j]) == Index(f, key, f.seeds[j])
      ensures BitAt(g.words, Index(g, key, f.seeds[j])) <==> AnyUses(f, keys, Index(f, key, f.seeds[j]))
    {
      var k := Index(f, key, f.seeds[j]);
      InsertedAllBits(f, keys, k);
      ZeroBit(k % 64);
    }
  }

  /** A key that was never inserted and passes every filter: the hash of the empty
      key and that of a single NUL are 0 for every seed. */
  lemma FalsePositive(f: Filter)
    requires Valid(f)
    ensures Valid(Inserted(f, [0 as char])) && Marked(Inserted(f, [0 as char]), [])
  {
    hide Bit, SetBit, Hash, SetSeeds, BitAt;
    InsertMarks(f, [0 as char], []);
    var g := Inserted(f, [0 as char]);
    forall j | 0 <= j < |f.seeds| ensures Index(g, [], f.seeds[j]) == Index(g, [0 as char], f.seeds[j]) {
      NulHash(f.seeds[j]);
    }
  }

  lemma NulHash(seed: nat)
    ensures Hash([0 as char], seed) == Hash([], seed)
  {
    assert HashPrefix([0 as char], 0, seed) * seed == 0;
  }

  // ---- sizing ----

  /** -ln(0.01) / ln(2)^2 * 2.35, which is 22.52 to two places. */
  predicate BitsPerKey(c: real) {
    22.5 <= c <= 22.6
  }

  function LengthFor(n: nat, c: real): nat
    requires c >= 0.0
  {
    (c * n as real).Floor + 1
  }

  function HashCountFor(n: nat, length: nat): nat
    requires n > 0
  {
    var k := (0.69 * length as real / n as real).Floor;
    if k < 1 then 1 else k
  }

  /** The length is the first whole number above the bits that are asked for, and
      the number of hash functions the whole part of 0.69 times the bits per key. */
  lemma SizingIs(n: nat, c: real)
    requires n > 0 && BitsPerKey(c)
    ensures c * n as real < LengthFor(n, c) as real <= c * n as real + 1.0
    ensures var k := 0.69 * LengthFor(n, c) as real / n as real;
            HashCountFor(n, LengthFor(n, c)) as real <= k < HashCountFor(n, LengthFor(n, c)) as real + 1.0
  {
    var m := n as real;
    var x := 0.69 * LengthFor(n, c) as real;
    assert c * m >= 22.5 * m;
    AtLeast(x, m);
  }

  lemma AtLeast(x: real, m: real)
    requires m > 0.0 && x >= m
    ensures x / m >= 1.0
  {
    assert x / m * m == x;
  }

  /** Between 1 and 16 hash functions, whatever the number of keys. */
  lemma HashCountBound(n: nat, c: real)
    requires n > 0 && BitsPerKey(c)
    ensures LengthFor(n, c) >= 1
    ensures 1 <= HashCountFor(n, LengthFor(n, c)) <= 16
  {
    var m := n as real;
    var length := LengthFor(n, c) as real;
    assert m >= 1.0;
    assert c * m <= 22.6 * m;
    assert length <= 23.6 * m;
    assert 0.69 * length / m <= 0.69 * 23.6 by {
      assert 0.69 * length <= 0.69 * 23.6 * m;
    }
  }

  // ---- the byte image ----

  function WordsBytes(words: seq<nat>): (b: Bytes)
    requires Fits(words)
    ensures |b| == 8 * |words|
  {
    if words == [] then [] else WordsBytes(words[..|words| - 1]) + U64(words[|words| - 1])
  }

  function HeadBytes(f: Filter): (b: Bytes)
    requires |f.seeds| < U64_LIMIT && f.length < U64_LIMIT && Fits(f.seeds)
    ensures |b| == 8 * (|f.seeds| + 2)
  {
    U64(|f.seeds|) + U64(f.length) + WordsBytes(f.seeds)
  }

  /** binary_size: the position is always a multiple of 8, so the padding is
      always 8 bytes, never none. */
  function ImageSize(f: Filter): nat {
    var index := |f.seeds| * 8 + 2 * 8;
    var align := 8 - index % 8;
    |f.seeds| * 8 + 2 * 8 + |f.words| * 8 + align
  }

  lemma ImageSizeIs(f: Filter)
    ensures ImageSize(f) == 8 * (|f.seeds| + 2) + 8 + 8 * |f.words|
  {
  }

  /** A buffer holds the image of a filter; the padding may be anything. */
  ghost predicate Stored(buffer: Bytes, at: nat, f: Filter) {
    Valid(f) && Holds(buffer, at, HeadBytes(f)) && Holds(buffer, at + |HeadBytes(f)| + 8, WordsBytes(f.words))
  }

  /** Writing elsewhere leaves a stored filter alone. */
  lemma StoredKept(b: Bytes, was: Bytes, at: nat, size: nat, p: nat, f: Filter)
    requires SameOutside(b, was, at, size) && Stored(was, p, f) && (p + ImageSize(f) <= at || at + size <= p)
    ensures Stored(b, p, f)
  {
    hide HeadBytes, WordsBytes, Holds, SameOutside;
    ImageSizeIs(f);
    HoldsKept(b, was, at, size, p, HeadBytes(f));
    HoldsKept(b, was, at, size, p + |HeadBytes(f)| + 8, WordsBytes(f.words));
  }

  /** A copy of a buffer carries the filter stored in it along. */
  lemma StoredCopied(b: Bytes, at: nat, part: Bytes, p: nat, f: Filter)
    requires Holds(b, at, part) && Stored(part, p, f)
    ensures Stored(b, at + p, f)
  {
    hide HeadBytes, WordsBytes, Holds;
    HoldsCopied(b, at, part, p, HeadBytes(f));
    HoldsCopied(b, at, part, p + |HeadBytes(f)| + 8, WordsBytes(f.words));
  }

  lemma {:induction false} WordAt(buffer: Bytes, at: nat, words: seq<nat>, i: nat)
    requires Fits(words) && Holds(buffer, at, WordsBytes(words)) && i < |words|
    ensures Holds(buffer, at + 8 * i, U64(words[i]))
    decreases |words|
  {
    hide Holds;
    var n := |words| - 1;
    HoldsParts(buffer, at, WordsBytes(words[..n]), U64(words[n]));
    if i < n {
      WordAt(buffer, at, words[..n], i);
    }
  }

  /** Copying eight-byte words out of a buffer. */
  method ReadWords(buffer: array<char>, at: nat, count: nat, ghost words: seq<nat>) returns (r: seq<nat>)
    requires Fits(words) && count == |words| && Holds(buffer[..], at, WordsBytes(words))
    ensures r == words
  {
    hide WordsBytes;
    r := [];
    for i := 0 to count
      invariant r == words[..i]
    {
      WordAt(buffer[..], at, words, i);
      ReadBack64(buffer[..], at + 8 * i, words[i]);
      assert words[..i + 1] == words[..i] + [words[i]];
      r := r + [ReadU64(buffer[..], at + 8 * i)];
    }
  }

  lemma {:induction false} ImageHeld(buffer: Bytes, was: Bytes, at: nat, f: Filter)
    requires Valid(f) && at + ImageSize(f) <= |was|
    requires var p := at + |HeadBytes(f)|;
             buffer == was[..at] + (HeadBytes(f) + was[p..p + 8] + WordsBytes(f.words)) + was[at + ImageSize(f)..]
    ensures Stored(buffer, at, f) && SameOutside(buffer, was, at, ImageSize(f))
  {
    hide HeadBytes, WordsBytes, ImageSize;
    ImageSizeIs(f);
    var h, w := HeadBytes(f), WordsBytes(f.words);
    assert buffer[at..at + |h|] == h;
    assert buffer[at + |h| + 8..at + |h| + 8 + |w|] == w;
  }

  lemma PadKept(b: Bytes, was: Bytes, at: nat, h: Bytes)
    requires at + |h| + 8 <= |was| && b == was[..at] + h + was[at + |h|..]
    ensures b == was[..at] + (h + was[at + |h|..at + |h| + 8]) + was[at + |h| + 8..]
  {
    var p := at + |h|;
    assert was[p..] == was[p..p + 8] + was[p + 8..];
  }

  /** What the layout functions ask of a valid filter. */
  lemma Sized(f: Filter)
    requires Valid(f)
    ensures |f.seeds| < U64_LIMIT && f.length < U64_LIMIT && Fits(f.seeds) && Fits(f.words)
    ensures |HeadBytes(f)| % 8 == 0
  {
  }

  /** Words one after the other behind what has been written. */
  method WriteWords(buffer: array<char>, start: nat, at: nat, words: seq<nat>, ghost was: Bytes, ghost done: Bytes)
    requires Fits(words) && |was| == buffer.Length && start + |done| == at && at + 8 * |words| <= buffer.Length
    requires buffer[..] == was[..start] + done + was[at..]
    modifies buffer
    ensures buffer[..] == was[..start] + (done + WordsBytes(words)) + was[at + 8 * |words|..]
  {
    hide U64, WordsBytes;
    NoWords();
    assert done + [] == done;
    for i := 0 to |words|
      invariant buffer[..] == was[..start] + (done + WordsBytes(words[..i])) + was[at + 8 * i..]
    {
      Extend(buffer, start, at + 8 * i, U64(words[i]), was, done + WordsBytes(words[..i]));
      NextWord(words, i, done);
    }
    assert words[..|words|] == words;
  }

  lemma NoWords()
    ensures WordsBytes([]) == []
  {
  }

  lemma NextWord(words: seq<nat>, i: nat, done: Bytes)
    requires Fits(words) && i < |words|
    ensures done + WordsBytes(words[..i]) + U64(words[i]) == done + WordsBytes(words[..i + 1])
  {
    hide U64;
    assert words[..i + 1][..i] == words[..i];
  }

  lemma BitsStored(buffer: Bytes, at: nat, f: Filter)
    requires Stored(buffer, at, f)
    ensures Valid(f) && |f.words| == f.length / 64 + 1
    ensures Holds(buffer, at + 8 * (|f.seeds| + 2) + 8, WordsBytes(f.words))
  {
  }

  method ReadHead(buffer: array<char>, at: nat, ghost f: Filter)
    returns (count: nat, len: nat, seeds: seq<nat>, index: nat)
    requires Stored(buffer[..], at, f)
    ensures count == |f.seeds| && len == f.length && seeds == f.seeds && index == at + 8 * (|f.seeds| + 2)
  {
    hide Bit, SetBit, WordsBytes, Holds;
    ghost var b := buffer[..];
    HoldsParts(b, at, U64(|f.seeds|) + U64(f.length), WordsBytes(f.seeds));
    HoldsParts(b, at, U64(|f.seeds|), U64(f.length));
    InBounds(b, at, f);
    ReadBack64(b, at, |f.seeds|);
    ReadBack64(b, at + 8, f.length);
    count := ReadU64(buffer[..], at);
    len := ReadU64(buffer[..], at + 8);
    seeds := ReadWords(buffer, at + 16, count, f.seeds);
    index := at + 16 + 8 * count;
  }

  lemma InBounds(buffer: Bytes, at: nat, f: Filter)
    requires Stored(buffer, at, f)
    ensures at + ImageSize(f) <= |buffer|
  {
  }

  class BloomFilter {
    var length: nat
    var hashNum: nat
    var seeds: seq<nat>
    var data: array<nat>

    ghost function Value(): Filter
      reads this, data
    {
      Filter(length, seeds, data[..])
    }

    ghost predicate Ready()
      reads this, data
    {
      Valid(Value()) && hashNum == |seeds|
    }

    constructor ()
      ensures seeds == []
    {
      length, hashNum, seeds := 0, 0, [];
      data := new nat[0];
    }

    /** Init: sized for n keys, no bit set; random gives the seeds. */
    method Init(n: nat, c: real, random: nat -> nat)
      requires n > 0 && BitsPerKey(c) && LengthFor(n, c) < U64_LIMIT && seeds == []
      requires forall i :: random(i) < U64_LIMIT
      modifies this
      ensures Ready() && fresh(data) && 1 <= hashNum <= 16 && length == LengthFor(n, c)
      ensures forall i :: 0 <= i < data.Length ==> data[i] == 0
      ensures |seeds| == HashCountFor(n, LengthFor(n, c)) && forall i :: 0 <= i < |seeds| ==> seeds[i] == random(i)
    {
      HashCountBound(n, c);
      length := LengthFor(n, c);
      hashNum := HashCountFor(n, length);
      for i := 0 to hashNum
        modifies this`seeds
        invariant |seeds| == i && Fits(seeds) && forall j :: 0 <= j < i ==> seeds[j] == random(j)
      {
        seeds := seeds + [random(i)];
      }
      data := new nat[length / 64 + 1](_ => 0);
    }

    /** Load: the filter whose image stands in the buffer, and the bytes it takes. */
    method Load(buffer: array<char>, at: nat, ghost f: Filter) returns (size: nat)
      requires Stored(buffer[..], at, f)
      modifies this
      ensures Ready() && fresh(data) && Value() == f && size == ImageSize(f)
    {
      hide Valid, Stored, WordsBytes, Holds;
      BitsStored(buffer[..], at, f);
      Sized(f);
      ImageSizeIs(f);
      var count, len, ss, index := ReadHead(buffer, at, f);
      index := index + (8 - (index - at) % 8);
      var ws := ReadWords(buffer, index, len / 64 + 1, f.words);
      hashNum, length, seeds := count, len, ss;
      data := new nat[len / 64 + 1](i requires 0 <= i < |ws| => ws[i]);
      assert data[..] == ws;
      size := index + 8 * (len / 64 + 1) - at;
    }

    /** Insert sets one bit for each seed. */
    method Insert(key: Bytes)
      requires Ready()
      modifies data
      ensures Ready() && Value() == Inserted(old(Value()), key)
    {
      hide Bit, SetBit, Hash;
      ghost var f := Value();
      for i := 0 to |seeds|
        invariant data[..] == SetSeeds(f, key, i)
      {
        var h := CalcHash(key, seeds[i]);
        var k := h % length;
        data[k / 64] := SetBit(data[k / 64], k % 64);
      }
      InsertMarks(f, key, key);
    }

    method Check(key: Bytes) returns (r: bool)
      requires Ready()
      ensures r <==> Marked(Value(), key)
    {
      hide Bit, SetBit, Hash;
      ghost var f := Value();
      for i := 0 to |seeds|
        invariant forall j :: 0 <= j < i ==> BitAt(f.words, Index(f, key, f.seeds[j]))
      {
        var h := CalcHash(key, seeds[i]);
        var k := h % length;
        assert k == Index(f, key, f.seeds[i]);
        if !Bit(data[k / 64], k % 64) {
          assert !BitAt(f.words, k);
          return false;
        }
      }
      return true;
    }

    method BinarySize() returns (size: nat)
      requires Ready()
      ensures size == ImageSize(Value())
    {
      var index := |seeds| * 8 + 2 * 8;
      var align := 8 - index % 8;
      size := |seeds| * 8 + 2 * 8 + (length / 64 + 1) * 8 + align;
    }

    /** Save writes as many bytes as binary_size says, and touches no others. */
    method Save(buffer: array<char>, at: nat) returns (size: nat)
      requires Ready() && at + ImageSize(Value()) <= buffer.Length
      modifies buffer
      ensures Value() == old(Value()) && size == ImageSize(Value())
      ensures Stored(buffer[..], at, Value()) && SameOutside(buffer[..], old(buffer[..]), at, size)
    {
      hide Valid, WordsBytes, HeadBytes, ImageSize, Stored;
      ghost var was, f := buffer[..], Value();
      Sized(f);
      size := SaveHead(buffer, at);
      size := SaveBits(buffer, at, size, was);
    }

    /** The padding and the bit array. */
    method SaveBits(buffer: array<char>, at: nat, head: nat, ghost was: Bytes) returns (size: nat)
      requires Ready() && |was| == buffer.Length && at + ImageSize(Value()) <= |was| && head == |HeadBytes(Value())|
      requires buffer[..] == was[..at] + HeadBytes(Value()) + was[at + head..]
      modifies buffer
      ensures size == ImageSize(Value()) && Value() == old(Value())
      ensures Stored(buffer[..], at, Value()) && SameOutside(buffer[..], was, at, size)
    {
      hide Valid, WordsBytes, HeadBytes, ImageSize, Stored, SameOutside;
      ghost var f := Value();
      ImageSizeIs(f);
      Sized(f);
      var bits := WordsBytes(data[..]);
      var index := at + head + (8 - head % 8);
      ghost var done := HeadBytes(f) + was[at + head..index];
      PadKept(buffer[..], was, at, HeadBytes(f));
      Extend(buffer, at, index, bits, was, done);
      size := index + |bits| - at;
      ImageHeld(buffer[..], was, at, f);
    }

    method SaveHead(buffer: array<char>, at: nat) returns (size: nat)
      requires Ready() && at + ImageSize(Value()) <= buffer.Length
      modifies buffer
      ensures size == |HeadBytes(Value())|
      ensures buffer[..] == old(buffer[..at]) + HeadBytes(Value()) + old(buffer[at + size..])
    {
      hide U64, WordsBytes;
      ghost var was, f := buffer[..], Value();
      assert was == was[..at] + [] + was[at..];
      Extend(buffer, at, at, U64(hashNum), was, []);
      Extend(buffer, at, at + 8, U64(length), was, [] + U64(hashNum));
      ghost var done := [] + U64(hashNum) + U64(length);
      WriteWords(buffer, at, at + 16, seeds, was, done);
      size := 16 + 8 * |seeds|;
      assert done + WordsBytes(seeds) == HeadBytes(f);
    }
  }
}
