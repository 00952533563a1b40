/** Sorted tables. A memtable read in key order, an SST and the output of a
    compaction are all runs: entries with strictly increasing keys. */
module Runs {
  import opened ByteOrder

  datatype Option<+T> = None | Some(value: T)

  datatype Entry = Entry(key: Bytes, value: Bytes)

  predicate Sorted(run: seq<Entry>) {
    forall i, j :: 0 <= i < j < |run| ==> Lt(run[i].key, run[j].key)
  }

  ghost predicate HasKey(run: seq<Entry>, key: Bytes) {
    exists i :: 0 <= i < |run| && run[i].key == key
  }

  /** What a run says about a key: the value of its entry, or nothing. */
  function Lookup(run: seq<Entry>, key: Bytes): (r: Option<Bytes>)
    ensures r.None? <==> !HasKey(run, key)
    ensures r.Some? ==> exists i :: 0 <= i < |run| && run[i] == Entry(key, r.value)
  {
    if run == [] then None
    else if run[0].key == key then assert run[0] == Entry(key, run[0].value); Some(run[0].value)
    else
      var r := Lookup(run[1..], key);
      assert forall i :: 0 < i < |run| ==> run[i] == run[1..][i - 1];
      r
  }

  /** In a sorted run the entry found is the only one with its key. */
  lemma LookupAt(run: seq<Entry>, i: nat)
    requires Sorted(run) && i < |run|
    ensures Lookup(run, run[i].key) == Some(run[i].value)
  {
    LtIrreflexive(run[i].key);
    assert HasKey(run, run[i].key);
    var r := Lookup(run, run[i].key);
    var j :| 0 <= j < |run| && run[j] == Entry(run[i].key, r.value);
    assert j == i;
  }

  /** A sorted run is determined by its answers. */
  lemma {:induction false} RunExtensionality(a: seq<Entry>, b: seq<Entry>)
    requires Sorted(a) && Sorted(b)
    requires forall k :: Lookup(a, k) == Lookup(b, k)
    ensures a == b
  {
    if a == [] || b == [] {
      assert forall k :: Lookup([], k) == None;
      if a != [] { LookupAt(a, 0); }
      if b != [] { LookupAt(b, 0); }
    } else {
      SameHead(a, b);
      SameHead(b, a);
      LtTotal(a[0].key, b[0].key);
      LookupAt(a, 0);
      LookupAt(b, 0);
      assert a[0] == b[0];
      forall k ensures Lookup(a[1..], k) == Lookup(b[1..], k) {
        LookupTail(a, k);
        LookupTail(b, k);
        assert Lookup(a, k) == Lookup(b, k);
      }
      RunExtensionality(a[1..], b[1..]);
      assert a == [a[0]] + a[1..] && b == [b[0]] + b[1..];
    }
  }

  lemma SameHead(a: seq<Entry>, b: seq<Entry>)
    requires Sorted(a) && Sorted(b) && a != [] && b != []
    requires forall k :: Lookup(a, k) == Lookup(b, k)
    ensures !Lt(a[0].key, b[0].key)
  {
    if Lt(a[0].key, b[0].key) {
      LookupAt(a, 0);
      assert HasKey(b, a[0].key);
      var j :| 0 <= j < |b| && b[j].key == a[0].key;
      LtIrreflexive(a[0].key);
      if j > 0 { LtTransitive(a[0].key, b[0].key, b[j].key); }
    }
  }

  lemma LookupTail(run: seq<Entry>, key: Bytes)
    requires Sorted(run) && run != []
    ensures Lookup(run[1..], key) == if key == run[0].key then None else Lookup(run, key)
  {
    if key == run[0].key && HasKey(run[1..], key) {
      var i :| 0 <= i < |run[1..]| && run[1..][i].key == key;
      assert Lt(run[0].key, run[i + 1].key);
      LtIrreflexive(key);
    }
  }

  /** Where a key stands, or would stand: the number of smaller keys. */
  function Position(run: seq<Entry>, key: Bytes): (p: nat)
    ensures p <= |run|
    ensures forall i :: 0 <= i < p ==> Lt(run[i].key, key)
    ensures p < |run| ==> !Lt(run[p].key, key)
  {
    if run == [] || !Lt(run[0].key, key) then 0
    else
      var p := Position(run[1..], key);
      assert forall i :: 0 < i < |run| ==> run[i] == run[1..][i - 1];
      1 + p
  }

  /** Insert a key or overwrite its value, keeping the order. */
  function Upsert(run: seq<Entry>, key: Bytes, value: Bytes): seq<Entry> {
    var p := Position(run, key);
    if p < |run| && run[p].key == key then run[p := Entry(key, value)]
    else run[..p] + [Entry(key, value)] + run[p..]
  }

  /** Drop the entry of a key, if there is one. */
  function Remove(run: seq<Entry>, key: Bytes): seq<Entry> {
    var p := Position(run, key);
    if p < |run| && run[p].key == key then run[..p] + run[p + 1..] else run
  }

  lemma AbovePosition(run: seq<Entry>, key: Bytes, i: nat)
    requires Sorted(run) && Position(run, key) <= i < |run|
    ensures Lt(key, run[i].key) || (i == Position(run, key) && run[i].key == key)
  {
    var p := Position(run, key);
    LtTotal(key, run[p].key);
    if i > p && Lt(key, run[p].key) { LtTransitive(key, run[p].key, run[i].key); }
  }

  lemma UpsertSorted(run: seq<Entry>, key: Bytes, value: Bytes)
    requires Sorted(run)
    ensures Sorted(Upsert(run, key, value))
  {
    var p := Position(run, key);
    forall i | p <= i < |run| ensures Lt(key, run[i].key) || (i == p && run[i].key == key) {
      AbovePosition(run, key, i);
    }
  }

  /** Upsert is map update. */
  lemma UpsertLookup(run: seq<Entry>, key: Bytes, value: Bytes, k: Bytes)
    requires Sorted(run)
    ensures Lookup(Upsert(run, key, value), k) == if k == key then Some(value) else Lookup(run, k)
  {
    hide Lt, Lookup;
    var p := Position(run, key);
    var out := Upsert(run, key, value);
    UpsertSorted(run, key, value);
    if k == key {
      assert out[p] == Entry(key, value);
      LookupAt(out, p);
    } else {
      if HasKey(run, k) {
        var i :| 0 <= i < |run| && run[i].key == k;
        LookupAt(run, i);
        var j := if |out| == |run| || i < p then i else i + 1;
        assert out[j] == run[i];
        LookupAt(out, j);
      } else {
        forall j | 0 <= j < |out| ensures out[j].key != k {
          assert j == p || out[j] == if |out| == |run| || j < p then run[j] else run[j - 1];
        }
      }
    }
  }

  lemma RemoveSorted(run: seq<Entry>, key: Bytes)
    requires Sorted(run)
    ensures Sorted(Remove(run, key))
  {
  }

  /** Remove is map removal. */
  lemma RemoveLookup(run: seq<Entry>, key: Bytes, k: Bytes)
    requires Sorted(run)
    ensures Lookup(Remove(run, key), k) == if k == key then None else Lookup(run, k)
  {
    hide Lt, Lookup;
    var p := Position(run, key);
    var out := Remove(run, key);
    LtIrreflexive(k);
    if p == |run| || run[p].key != key {
      forall i | 0 <= i < |run| ensures run[i].key != key {
        if i >= p { AbovePosition(run, key, i); } else { LtIrreflexive(key); }
      }
    } else if HasKey(run, k) && k != key {
      var i :| 0 <= i < |run| && run[i].key == k;
      LookupAt(run, i);
      var j := if i < p then i else i - 1;
      assert out[j] == run[i];
      LookupAt(out, j);
    } else {
      forall j | 0 <= j < |out| ensures out[j].key != k {
        assert out[j] == run[if j < p then j else j + 1];
      }
    }
  }

  /** In a sorted run, looking at one position is enough. */
  lemma LookupAtPosition(run: seq<Entry>, key: Bytes)
    requires Sorted(run)
    ensures var p := Position(run, key);
            Lookup(run, key) == if p < |run| && run[p].key == key then Some(run[p].value) else None
  {
    hide Lt, Lookup;
    var p := Position(run, key);
    if p < |run| && run[p].key == key {
      LookupAt(run, p);
    } else {
      forall i | 0 <= i < |run| ensures run[i].key != key {
        LtIrreflexive(key);
        if i >= p { AbovePosition(run, key, i); }
      }
    }
  }

  /** Key and value bytes of a run. */
  function ByteSize(run: seq<Entry>): nat {
    if run == [] then 0 else |run[0].key| + |run[0].value| + ByteSize(run[1..])
  }

  lemma {:induction false} ByteSizeConcat(a: seq<Entry>, b: seq<Entry>)
    ensures ByteSize(a + b) == ByteSize(a) + ByteSize(b)
  {
    if a == [] {
      assert a + b == b;
    } else {
      assert (a + b)[1..] == a[1..] + b;
      ByteSizeConcat(a[1..], b);
    }
  }

  lemma ByteSizeAt(run: seq<Entry>, p: nat)
    requires p < |run|
    ensures ByteSize(run) == ByteSize(run[..p]) + |run[p].key| + |run[p].value| + ByteSize(run[p + 1..])
  {
    assert run == run[..p] + run[p..];
    ByteSizeConcat(run[..p], run[p..]);
  }

  /** What an upsert adds to the byte size. */
  lemma ByteSizeUpsert(run: seq<Entry>, key: Bytes, value: Bytes)
    ensures ByteSize(Upsert(run, key, value))
         == var p := Position(run, key);
            if p < |run| && run[p].key == key then ByteSize(run) + |value| - |run[p].value|
            else ByteSize(run) + |key| + |value|
  {
    hide Lt, Position;
    var p := Position(run, key);
    var out := Upsert(run, key, value);
    assert out[p] == Entry(key, value);
    ByteSizeAt(out, p);
    if |out| == |run| {
      ByteSizeAt(run, p);
      assert out[..p] == run[..p] && out[p + 1..] == run[p + 1..];
    } else {
      assert out[..p] == run[..p] && out[p + 1..] == run[p..];
      assert run == run[..p] + run[p..];
      ByteSizeConcat(run[..p], run[p..]);
    }
  }

  /** Upserting a new key inserts one entry at its position. */
  lemma UpsertNew(run: seq<Entry>, key: Bytes, value: Bytes)
    requires Sorted(run)
    requires var p := Position(run, key); p < |run| ==> run[p].key != key
    ensures var p := Position(run, key);
            Upsert(run, key, value) == run[..p] + [Entry(key, value)] + run[p..]
    ensures Sorted(Upsert(run, key, value)) && |Upsert(run, key, value)| == |run| + 1
    ensures ByteSize(Upsert(run, key, value)) == ByteSize(run) + |key| + |value|
  {
    hide Lt;
    UpsertSorted(run, key, value);
    ByteSizeUpsert(run, key, value);
  }

  /** Upserting a key that is there overwrites its value in place. */
  lemma UpsertKnown(run: seq<Entry>, key: Bytes, value: Bytes)
    requires Sorted(run)
    requires var p := Position(run, key); p < |run| && run[p].key == key
    ensures var p := Position(run, key);
            Upsert(run, key, value) == run[p := Entry(key, value)]
            && ByteSize(run) >= |run[p].value|
            && ByteSize(Upsert(run, key, value)) == ByteSize(run) + |value| - |run[p].value|
    ensures Sorted(Upsert(run, key, value))
  {
    hide Lt;
    UpsertSorted(run, key, value);
    ByteSizeUpsert(run, key, value);
    ByteSizeAt(run, Position(run, key));
  }
}
