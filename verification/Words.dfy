/** Fixed-width little-endian integers, as memcpy lays out size_t and uint32_t. */
module Words {
  import opened ByteOrder
  import opened Arithmetic

  const U64_LIMIT := 0x1_0000_0000_0000_0000
  const U32_LIMIT := 0x1_0000_0000

  function Pow256(w: nat): nat {
    if w == 0 then 1 else 256 * Pow256(w - 1)
  }

  /** The low w bytes of n, least significant first. */
  function Encode(n: nat, w: nat): (b: Bytes)
    ensures |b| == w
  {
    if w == 0 then [] else [(n % 256) as char] + Encode(n / 256, w - 1)
  }

  function Decode(b: Bytes): nat {
    if b == [] then 0 else b[0] as nat + 256 * Decode(b[1..])
  }

  /** Decoding inverts encoding for every number that fits. */
  lemma {:induction false} RoundTrip(n: nat, w: nat)
    requires n < Pow256(w)
    ensures Decode(Encode(n, w)) == n
  {
    if w > 0 {
      assert n / 256 < Pow256(w - 1);
      RoundTrip(n / 256, w - 1);
      assert Encode(n, w)[1..] == Encode(n / 256, w - 1);
    }
  }

  lemma QuotientInSteps(n: nat, p: nat)
    requires p > 0
    ensures n / 256 / p == n / (256 * p)
  {
    var h, m := n / 256, 256 * p;
    var q, r := h / p, h % p;
    Divided(h, p);
    Divided(n, m);
    assert q * m == 256 * (q * p);
    Quotient(n / m, n % m, q, 256 * r + n % 256, m);
  }

  /** Byte i carries the bits of weight 256^i: the least significant byte is first. */
  lemma {:induction false} LittleEndian(n: nat, w: nat, i: nat)
    requires i < w
    ensures Pow256(i) > 0 && Encode(n, w)[i] as nat == n / Pow256(i) % 256
  {
    if i > 0 {
      LittleEndian(n / 256, w - 1, i - 1);
      QuotientInSteps(n, Pow256(i - 1));
    }
  }

  function U64(n: nat): (b: Bytes)
    requires n < U64_LIMIT
    ensures |b| == 8
  {
    Encode(n, 8)
  }

  function U32(n: nat): (b: Bytes)
    requires n < U32_LIMIT
    ensures |b| == 4
  {
    Encode(n, 4)
  }

  lemma Limits()
    ensures Pow256(8) == U64_LIMIT && Pow256(4) == U32_LIMIT
  {
    assert Pow256(2) == 0x1_0000;
    assert Pow256(4) == 0x1_0000_0000;
    assert Pow256(6) == 0x1_0000_0000_0000;
  }

  /** ReadSize: the eight bytes at a place in a buffer. */
  function ReadU64(buffer: Bytes, at: nat): nat
    requires at + 8 <= |buffer|
  {
    Decode(buffer[at..at + 8])
  }

  function ReadU32(buffer: Bytes, at: nat): nat
    requires at + 4 <= |buffer|
  {
    Decode(buffer[at..at + 4])
  }

  /** The buffer holds these bytes at this place. */
  predicate Holds(buffer: Bytes, at: nat, bytes: Bytes) {
    at + |bytes| <= |buffer| && buffer[at..at + |bytes|] == bytes
  }

  lemma HoldsParts(buffer: Bytes, at: nat, a: Bytes, b: Bytes)
    ensures Holds(buffer, at, a + b) <==> Holds(buffer, at, a) && Holds(buffer, at + |a|, b)
  {
    if Holds(buffer, at, a) && Holds(buffer, at + |a|, b) {
      assert buffer[at..at + |a + b|] == buffer[at..at + |a|] + buffer[at + |a|..at + |a| + |b|];
    }
    if Holds(buffer, at, a + b) {
      assert buffer[at..at + |a|] == buffer[at..at + |a + b|][..|a|];
      assert buffer[at + |a|..at + |a| + |b|] == buffer[at..at + |a + b|][|a|..];
    }
  }

  lemma ReadBack64(buffer: Bytes, at: nat, n: nat)
    requires n < U64_LIMIT && Holds(buffer, at, U64(n))
    ensures ReadU64(buffer, at) == n
  {
    Limits();
    RoundTrip(n, 8);
  }

  lemma ReadBack32(buffer: Bytes, at: nat, n: nat)
    requires n < U32_LIMIT && Holds(buffer, at, U32(n))
    ensures ReadU32(buffer, at) == n
  {
    Limits();
    RoundTrip(n, 4);
  }
}
