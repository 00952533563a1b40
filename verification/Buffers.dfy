/** Writing into a fixed-size buffer through a moving cursor. */
module Buffers {
  import opened ByteOrder
  import opened Words

  /** memcpy of bytes to a place in the buffer. */
  method Write(buffer: array<char>, at: nat, bytes: Bytes)
    requires at + |bytes| <= buffer.Length
    modifies buffer
    ensures buffer[..] == old(buffer[..at]) + bytes + old(buffer[at + |bytes|..])
    ensures buffer[..at + |bytes|] == old(buffer[..at]) + bytes
  {
    for i := 0 to |bytes|
      invariant buffer[..] == old(buffer[..at]) + bytes[..i] + old(buffer[at + i..])
    {
      buffer[at + i] := bytes[i];
      assert bytes[..i + 1] == bytes[..i] + [bytes[i]];
    }
    assert bytes[..|bytes|] == bytes;
    assert buffer[..at + |bytes|] == buffer[..][..at + |bytes|];
  }

  /** Writing behind what has been written already: was is the buffer before the
      first write, done what stands from start up to the cursor. */
  method Extend(buffer: array<char>, start: nat, at: nat, bytes: Bytes, ghost was: Bytes, ghost done: Bytes)
    requires |was| == buffer.Length && start + |done| == at && at + |bytes| <= buffer.Length
    requires buffer[..] == was[..start] + done + was[at..]
    modifies buffer
    ensures buffer[..] == was[..start] + (done + bytes) + was[at + |bytes|..]
  {
    ghost var now := buffer[..];
    assert buffer[..at] == now[..at] == was[..start] + done;
    assert buffer[at + |bytes|..] == now[at + |bytes|..] == was[at + |bytes|..];
    Write(buffer, at, bytes);
    assert was[..start] + done + bytes == was[..start] + (done + bytes);
  }

  /** Two buffers that differ at most in one stretch. */
  ghost predicate SameOutside(b: Bytes, was: Bytes, at: nat, size: nat) {
    |b| == |was| && at + size <= |b| && b[..at] == was[..at] && b[at + size..] == was[at + size..]
  }

  /** Writing elsewhere leaves what a buffer holds alone. */
  lemma HoldsKept(b: Bytes, was: Bytes, at: nat, size: nat, p: nat, bytes: Bytes)
    requires SameOutside(b, was, at, size) && Holds(was, p, bytes) && (p + |bytes| <= at || at + size <= p)
    ensures Holds(b, p, bytes)
  {
    if p + |bytes| <= at {
      assert b[p..p + |bytes|] == b[..at][p..p + |bytes|];
      assert was[p..p + |bytes|] == was[..at][p..p + |bytes|];
    } else {
      var q := at + size;
      assert b[p..p + |bytes|] == b[q..][p - q..p - q + |bytes|];
      assert was[p..p + |bytes|] == was[q..][p - q..p - q + |bytes|];
    }
  }

  /** A copy carries its contents along. */
  lemma HoldsCopied(b: Bytes, at: nat, part: Bytes, p: nat, bytes: Bytes)
    requires Holds(b, at, part) && Holds(part, p, bytes)
    ensures Holds(b, at + p, bytes)
  {
    forall i | 0 <= i < |bytes| ensures b[at + p + i] == bytes[i] {
      assert part[p + i] == b[at..at + |part|][p + i];
      assert part[p..p + |bytes|][i] == bytes[i];
    }
  }

  /** What a run of Extend calls leaves behind. */
  lemma Extended(b: Bytes, was: Bytes, start: nat, done: Bytes)
    requires start + |done| <= |was| && b == was[..start] + done + was[start + |done|..]
    ensures Holds(b, start, done) && SameOutside(b, was, start, |done|)
  {
  }

  /** One write, seen as a place that holds bytes in an otherwise unchanged buffer. */
  method Place(buffer: array<char>, at: nat, bytes: Bytes)
    requires at + |bytes| <= buffer.Length
    modifies buffer
    ensures Holds(buffer[..], at, bytes) && SameOutside(buffer[..], old(buffer[..]), at, |bytes|)
  {
    ghost var was := buffer[..];
    assert was == was[..at] + [] + was[at..];
    Extend(buffer, at, at, bytes, was, []);
    assert [] + bytes == bytes;
    Extended(buffer[..], was, at, bytes);
  }
}
