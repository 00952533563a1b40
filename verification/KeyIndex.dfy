/** The key index of the store above the database: a list of known keys and a
    byte counter kept beside the data, and saved in the data under a reserved key. */
module KeyIndex {
  import opened ByteOrder
  import opened Runs
  import opened Codec
  import opened Keyspace
  import opened DbModel

  const META_KEY: Bytes := "__mokv__:meta:key_index"

  // ---- sorting ----

  predicate Distinct(keys: seq<Bytes>) {
    forall i, j :: 0 <= i < j < |keys| ==> keys[i] != keys[j]
  }

  predicate Ascending(keys: seq<Bytes>) {
    forall i, j :: 0 <= i < j < |keys| ==> Lt(keys[i], keys[j])
  }

  function InsertKey(keys: seq<Bytes>, key: Bytes): seq<Bytes> {
    if keys == [] || !Lt(keys[0], key) then [key] + keys else [keys[0]] + InsertKey(keys[1..], key)
  }

  /** What std::sort makes of a list of strings. */
  function SortKeys(keys: seq<Bytes>): seq<Bytes> {
    if keys == [] then [] else InsertKey(SortKeys(keys[1..]), keys[0])
  }

  lemma {:induction false} InsertKeyMembers(keys: seq<Bytes>, key: Bytes)
    ensures multiset(InsertKey(keys, key)) == multiset(keys) + multiset{key}
  {
    if keys != [] && Lt(keys[0], key) {
      InsertKeyMembers(keys[1..], key);
      assert keys == [keys[0]] + keys[1..];
    }
  }

  lemma {:induction false} InsertKeyAscending(keys: seq<Bytes>, key: Bytes)
    requires Ascending(keys) && key !in keys
    ensures Ascending(InsertKey(keys, key))
  {
    hide Lt;
    if keys == [] {
    } else if Lt(keys[0], key) {
      var r := InsertKey(keys[1..], key);
      InsertKeyAscending(keys[1..], key);
      InsertKeyMembers(keys[1..], key);
      forall j | 0 <= j < |r| ensures Lt(keys[0], r[j]) {
        assert r[j] in multiset(r);
        assert r[j] == key || r[j] in keys[1..];
      }
    } else {
      LtTotal(keys[0], key);
      forall j | 0 <= j < |keys| ensures Lt(key, keys[j]) {
        if j > 0 { LtTransitive(key, keys[0], keys[j]); }
      }
    }
  }

  lemma {:induction false} SortKeysPermutes(keys: seq<Bytes>)
    ensures multiset(SortKeys(keys)) == multiset(keys)
  {
    if keys != [] {
      SortKeysPermutes(keys[1..]);
      InsertKeyMembers(SortKeys(keys[1..]), keys[0]);
      assert keys == [keys[0]] + keys[1..];
    }
  }

  lemma SortKeysMembers(keys: seq<Bytes>, key: Bytes)
    ensures key in SortKeys(keys) <==> key in keys
  {
    SortKeysPermutes(keys);
    assert key in SortKeys(keys) <==> key in multiset(SortKeys(keys));
    assert key in keys <==> key in multiset(keys);
  }

  /** Sorting permutes, and sorts. */
  lemma {:induction false} SortKeysSorts(keys: seq<Bytes>)
    requires Distinct(keys)
    ensures Ascending(SortKeys(keys))
    ensures forall k :: k in SortKeys(keys) <==> k in keys
  {
    hide Lt, InsertKey;
    if keys != [] {
      SortKeysSorts(keys[1..]);
      SortKeysMembers(keys[1..], keys[0]);
      InsertKeyAscending(SortKeys(keys[1..]), keys[0]);
    }
    forall k ensures k in SortKeys(keys) <==> k in keys {
      SortKeysMembers(keys, k);
    }
  }

  lemma AscendingDistinct(keys: seq<Bytes>)
    requires Ascending(keys)
    ensures Distinct(keys)
  {
    forall i, j | 0 <= i < j < |keys| ensures keys[i] != keys[j] {
      LtIrreflexive(keys[i]);
    }
  }

  /** An ascending list is determined by its members. */
  lemma {:induction false} AscendingUnique(a: seq<Bytes>, b: seq<Bytes>)
    requires Ascending(a) && Ascending(b)
    requires forall k :: k in a <==> k in b
    ensures a == b
  {
    hide Lt;
    if a != [] { StillMembers(a, b); }
    if b != [] { StillMembers(b, a); }
    if a != [] {
      LeastFirst(a, b[0]);
      LeastFirst(b, a[0]);
      Trichotomy(a[0], b[0]);
      forall k ensures k in a[1..] <==> k in b[1..] {
        TailMembers(a, k);
        TailMembers(b, k);
      }
      AscendingUnique(a[1..], b[1..]);
      assert a == [a[0]] + a[1..] && b == [b[0]] + b[1..];
    }
  }

  lemma StillMembers(a: seq<Bytes>, b: seq<Bytes>)
    requires a != [] && forall k :: k in a ==> k in b
    ensures b != []
  {
    assert a[0] in b;
  }

  lemma LeastFirst(keys: seq<Bytes>, key: Bytes)
    requires Ascending(keys) && key in keys
    ensures Le(keys[0], key)
  {
    hide Lt;
    var i :| 0 <= i < |keys| && keys[i] == key;
    assert i == 0 || Lt(keys[0], keys[i]);
  }

  lemma TailMembers(keys: seq<Bytes>, key: Bytes)
    requires Ascending(keys) && keys != []
    ensures key in keys[1..] <==> key in keys && key != keys[0]
  {
    AscendingDistinct(keys);
    assert forall i :: 1 <= i < |keys| ==> keys[1..][i - 1] == keys[i];
  }

  // ---- the saved form ----

  function SerializedList(keys: seq<Bytes>): Bytes {
    if keys == [] then [] else Escaped(keys[0]) + "\n" + SerializedList(keys[1..])
  }

  function Serialized(keys: seq<Bytes>): Bytes {
    SerializedList(SortKeys(keys))
  }

  /** Lines that are not empty, decoded. */
  function KeysOfLines(lines: seq<Bytes>): seq<Bytes> {
    if lines == [] then []
    else (if lines[0] == [] then [] else [Unescaped(lines[0], false)]) + KeysOfLines(lines[1..])
  }

  function Deserialized(payload: Bytes): seq<Bytes> {
    KeysOfLines(Lines(payload))
  }

  function NonEmpty(keys: seq<Bytes>): seq<Bytes> {
    if keys == [] then [] else (if keys[0] == [] then [] else [keys[0]]) + NonEmpty(keys[1..])
  }

  method SerializeKeys(keys: seq<Bytes>) returns (serialized: Bytes)
    ensures serialized == Serialized(keys)
  {
    hide Escaped, SortKeys;
    var sorted := SortKeys(keys);
    serialized := [];
    for i := 0 to |sorted|
      invariant serialized + SerializedList(sorted[i..]) == SerializedList(sorted)
    {
      var line := Escape(sorted[i]);
      assert sorted[i..][1..] == sorted[i + 1..];
      Associate(serialized, line + "\n", SerializedList(sorted[i + 1..]));
      serialized := serialized + (line + "\n");
    }
  }

  method DeserializeKeys(payload: Bytes) returns (keys: seq<Bytes>)
    ensures keys == Deserialized(payload)
  {
    hide Unescaped, Lines;
    var lines := Lines(payload);
    keys := [];
    for i := 0 to |lines|
      invariant keys + KeysOfLines(lines[i..]) == KeysOfLines(lines)
    {
      assert lines[i..][1..] == lines[i + 1..];
      if lines[i] == [] {
        continue;
      }
      var key := Unescape(lines[i]);
      keys := keys + [key];
    }
  }

  /** The index comes back sorted, and without the empty key: its line is blank. */
  lemma {:induction false} IndexRoundTrip(keys: seq<Bytes>)
    ensures KeysOfLines(Lines(SerializedList(keys))) == NonEmpty(keys)
  {
    if keys != [] {
      hide Lines, Escaped, Unescaped;
      IndexRoundTrip(keys[1..]);
      EscapedIsPlain(keys[0]);
      LineFirst(Escaped(keys[0]), SerializedList(keys[1..]));
      UnescapeEscaped(keys[0]);
      EscapedEmpty(keys[0]);
      var rest := Lines(SerializedList(keys[1..]));
      assert ([Escaped(keys[0])] + rest)[1..] == rest;
    }
  }

  lemma EscapedEmpty(key: Bytes)
    ensures Escaped(key) == [] <==> key == []
  {
  }

  lemma {:induction false} NonEmptyMembers(keys: seq<Bytes>)
    ensures forall k :: k in NonEmpty(keys) <==> k in keys && k != []
    ensures [] !in keys ==> NonEmpty(keys) == keys
    ensures Ascending(keys) ==> Ascending(NonEmpty(keys))
  {
    if keys != [] {
      hide Lt;
      NonEmptyMembers(keys[1..]);
      assert keys == [keys[0]] + keys[1..];
    }
  }

  /** A saved index never reads as a tombstone. */
  lemma {:induction false} IndexIsNoTombstone(keys: seq<Bytes>)
    ensures SerializedList(keys) == [] || SerializedList(keys)[|SerializedList(keys)| - 1] == '\n'
    ensures SerializedList(keys) != TOMBSTONE
  {
    if keys != [] {
      IndexIsNoTombstone(keys[1..]);
      var rest := SerializedList(keys[1..]);
      assert rest == [] ==> SerializedList(keys) == Escaped(keys[0]) + "\n";
    }
    assert TOMBSTONE[17] == 0x1F as char && |TOMBSTONE| == 18;
  }

  // ---- the byte counter ----

  function Find(data: map<Bytes, Bytes>, key: Bytes): Option<Bytes> {
    if key in data then Some(data[key]) else None
  }

  function EntryBytes(data: map<Bytes, Bytes>, key: Bytes): nat {
    if key in data then |key| + |data[key]| else 0
  }

  function TotalBytes(known: seq<Bytes>, data: map<Bytes, Bytes>): nat {
    if known == [] then 0 else EntryBytes(data, known[0]) + TotalBytes(known[1..], data)
  }

  /** A change at one key moves the total by that key's share. */
  lemma {:induction false} TotalMoves(known: seq<Bytes>, a: map<Bytes, Bytes>, b: map<Bytes, Bytes>, key: Bytes)
    requires Distinct(known)
    requires forall k :: k in known && k != key ==> Find(a, k) == Find(b, k)
    ensures TotalBytes(known, b) - TotalBytes(known, a)
         == if key in known then EntryBytes(b, key) - EntryBytes(a, key) else 0
  {
    if known != [] {
      TotalMoves(known[1..], a, b, key);
      assert known == [known[0]] + known[1..];
      assert Find(a, known[0]) == Find(b, known[0]) || known[0] == key;
      assert known[0] == key ==> key !in known[1..];
    }
  }

  lemma {:induction false} TotalConcat(p: seq<Bytes>, q: seq<Bytes>, data: map<Bytes, Bytes>)
    ensures TotalBytes(p + q, data) == TotalBytes(p, data) + TotalBytes(q, data)
  {
    if p == [] {
      assert p + q == q;
    } else {
      assert (p + q)[1..] == p[1..] + q;
      TotalConcat(p[1..], q, data);
    }
  }

  lemma {:induction false} TotalInsert(keys: seq<Bytes>, key: Bytes, data: map<Bytes, Bytes>)
    ensures TotalBytes(InsertKey(keys, key), data) == TotalBytes(keys, data) + EntryBytes(data, key)
  {
    if keys != [] && Lt(keys[0], key) {
      TotalInsert(keys[1..], key, data);
    }
  }

  /** The total does not depend on the order of the keys. */
  lemma {:induction false} TotalSorted(keys: seq<Bytes>, data: map<Bytes, Bytes>)
    ensures TotalBytes(SortKeys(keys), data) == TotalBytes(keys, data)
  {
    if keys != [] {
      TotalSorted(keys[1..], data);
      TotalInsert(SortKeys(keys[1..]), keys[0], data);
    }
  }

  // ---- the store as a value ----

  /** data is what was written and not deleted, the index record included. seen
      is what the database answers: the same, except for keys decided by a table
      that the flusher has popped and not published yet. */
  datatype KvState = KvState(data: map<Bytes, Bytes>, seen: map<Bytes, Bytes>, known: seq<Bytes>, bytes: int)

  /** A stored tombstone cannot be told from a deletion. */
  function Written(data: map<Bytes, Bytes>, key: Bytes, value: Bytes): map<Bytes, Bytes> {
    if value == TOMBSTONE then data - {key} else data[key := value]
  }

  function WithIndex(data: map<Bytes, Bytes>, seen: map<Bytes, Bytes>, known: seq<Bytes>, bytes: int): KvState {
    var index := Serialized(known);
    KvState(Written(data, META_KEY, index), Written(seen, META_KEY, index), known, bytes)
  }

  function Added(known: seq<Bytes>, key: Bytes): seq<Bytes> {
    if key in known then known else known + [key]
  }

  /** std::find followed by erase. */
  function Erased(known: seq<Bytes>, key: Bytes): seq<Bytes> {
    if known == [] then [] else if known[0] == key then known[1..] else [known[0]] + Erased(known[1..], key)
  }

  /** DBKVStore::Put with a key that is not reserved; the previous value is the
      one the database shows. */
  function AfterPut(s: KvState, key: Bytes, value: Bytes): KvState {
    WithIndex(Written(s.data, key, value), Written(s.seen, key, value), Added(s.known, key),
              s.bytes - EntryBytes(s.seen, key) + (|key| + |value|))
  }

  /** DBKVStore::Delete with a key that is not reserved; a key the database does
      not show is taken for absent. */
  function AfterDelete(s: KvState, key: Bytes): KvState {
    if key !in s.seen then s
    else WithIndex(s.data - {key}, s.seen - {key}, Erased(s.known, key), s.bytes - EntryBytes(s.seen, key))
  }

  /** A new store object over the same database, which published everything when
      it was closed: LoadKeyIndex. */
  function AfterReopen(s: KvState): KvState {
    if META_KEY !in s.data then KvState(s.data, s.data, [], 0)
    else
      var known := Deserialized(s.data[META_KEY]);
      KvState(s.data, s.data, known, TotalBytes(known, s.data))
  }

  /** The database shows the key as it is. */
  predicate Unhidden(s: KvState, key: Bytes) {
    Find(s.seen, key) == Find(s.data, key)
  }

  /** The flusher holds nothing. */
  predicate Quiet(s: KvState) {
    s.seen == s.data
  }

  /** The index lists the data: no key twice, exactly the live keys that are not
      reserved, and the saved index is current. */
  ghost predicate Indexed(s: KvState) {
    && Distinct(s.known)
    && (forall k :: k in s.known <==> k in s.data && !IsReserved(k))
    && (forall k :: k in s.data && IsReserved(k) ==> k == META_KEY)
    && (META_KEY in s.data ==> s.data[META_KEY] == Serialized(s.known))
    && (META_KEY !in s.data ==> s.known == [])
  }

  /** And the byte counter is exact. */
  ghost predicate Agrees(s: KvState) {
    Indexed(s) && s.bytes == TotalBytes(s.known, s.data)
  }

  /** What was stored under the keys of users. */
  function Live(s: KvState): map<Bytes, Bytes> {
    map k | k in s.data && !IsReserved(k) :: s.data[k]
  }

  lemma MetaIsReserved()
    ensures IsReserved(META_KEY)
  {
  }

  lemma WithIndexIndexed(data: map<Bytes, Bytes>, seen: map<Bytes, Bytes>, known: seq<Bytes>, bytes: int)
    requires Distinct(known)
    requires forall k :: k in known <==> k in data && !IsReserved(k)
    requires forall k :: k in data && IsReserved(k) ==> k == META_KEY
    ensures Indexed(WithIndex(data, seen, known, bytes))
    ensures WithIndex(data, seen, known, bytes).known == known && WithIndex(data, seen, known, bytes).bytes == bytes
    ensures TotalBytes(known, WithIndex(data, seen, known, bytes).data) == TotalBytes(known, data)
    ensures Live(WithIndex(data, seen, known, bytes)) == map k | k in data && !IsReserved(k) :: data[k]
  {
    hide IsReserved, Serialized, TotalBytes;
    MetaIsReserved();
    IndexIsNoTombstone(SortKeys(known));
    SerializedIs(known);
    TotalMoves(known, data, WithIndex(data, seen, known, bytes).data, META_KEY);
  }

  lemma SerializedIs(known: seq<Bytes>)
    ensures Serialized(known) == SerializedList(SortKeys(known))
  {
  }

  lemma AddedKeys(known: seq<Bytes>, key: Bytes)
    requires Distinct(known)
    ensures Distinct(Added(known, key))
    ensures forall k :: k in Added(known, key) <==> k in known || k == key
  {
  }

  lemma {:induction false} ErasedKeys(known: seq<Bytes>, key: Bytes)
    requires Distinct(known)
    ensures Distinct(Erased(known, key))
    ensures forall k :: k in Erased(known, key) <==> k in known && k != key
  {
    if known != [] {
      ErasedKeys(known[1..], key);
      assert known == [known[0]] + known[1..];
      var rest := Erased(known[1..], key);
      assert known[0] !in known[1..];
      assert forall i :: 0 <= i < |rest| ==> rest[i] in rest;
    }
  }

  lemma {:induction false} TotalErased(known: seq<Bytes>, key: Bytes, data: map<Bytes, Bytes>)
    ensures TotalBytes(Erased(known, key), data)
         == TotalBytes(known, data) - if key in known then EntryBytes(data, key) else 0
  {
    if known != [] {
      TotalErased(known[1..], key, data);
      assert known == [known[0]] + known[1..];
      if known[0] != key {
        assert Erased(known, key)[1..] == Erased(known[1..], key);
      }
    }
  }

  /** Put keeps the index exactly when the value is not the tombstone, and then
      it is map update, whatever the database shows. */
  lemma PutIndexedIff(s: KvState, key: Bytes, value: Bytes)
    requires Indexed(s) && !IsReserved(key)
    ensures Indexed(AfterPut(s, key, value)) <==> value != TOMBSTONE
    ensures value != TOMBSTONE ==>
              && Live(AfterPut(s, key, value)) == Live(s)[key := value]
              && var t := AfterPut(s, key, value);
                 t.bytes - TotalBytes(t.known, t.data)
                 == s.bytes - TotalBytes(s.known, s.data) + EntryBytes(s.data, key) - EntryBytes(s.seen, key)
  {
    hide IsReserved, Serialized, TotalBytes, EntryBytes;
    MetaIsReserved();
    var known := Added(s.known, key);
    AddedKeys(s.known, key);
    if value != TOMBSTONE {
      TotalOfPut(s.known, s.data, key, value);
      WithIndexIndexed(s.data[key := value], s.seen[key := value], known,
                       s.bytes - EntryBytes(s.seen, key) + (|key| + |value|));
    } else {
      var t := AfterPut(s, key, value);
      assert key in t.known && key !in t.data;
    }
  }

  /** Put keeps index and byte counter in agreement with the data exactly when
      the value is not the tombstone and the size of what the database shows for
      the key is the size of what is there. */
  lemma PutAgreesIff(s: KvState, key: Bytes, value: Bytes)
    requires Agrees(s) && !IsReserved(key)
    ensures Agrees(AfterPut(s, key, value)) <==>
              value != TOMBSTONE && EntryBytes(s.seen, key) == EntryBytes(s.data, key)
    ensures value != TOMBSTONE ==> Live(AfterPut(s, key, value)) == Live(s)[key := value]
  {
    hide IsReserved, TotalBytes, EntryBytes, Indexed, Live, AfterPut;
    PutIndexedIff(s, key, value);
  }

  lemma TotalOfPut(known: seq<Bytes>, data: map<Bytes, Bytes>, key: Bytes, value: Bytes)
    requires Distinct(known) && (key in data ==> key in known)
    ensures TotalBytes(Added(known, key), data[key := value])
         == TotalBytes(known, data) - EntryBytes(data, key) + (|key| + |value|)
  {
    TotalMoves(known, data, data[key := value], key);
    if key !in known {
      TotalConcat(known, [key], data[key := value]);
      assert [key][1..] == [];
    }
  }

  lemma TotalOfDelete(known: seq<Bytes>, data: map<Bytes, Bytes>, key: Bytes)
    requires Distinct(known) && (key in known <==> key in data)
    ensures TotalBytes(Erased(known, key), data - {key}) == TotalBytes(known, data) - EntryBytes(data, key)
  {
    hide TotalBytes, Erased;
    ErasedKeys(known, key);
    TotalErased(known, key, data);
    TotalMoves(Erased(known, key), data, data - {key}, key);
  }

  /** Delete always keeps the index; it removes the key exactly when the database
      shows it or it is not there. */
  lemma DeleteIndexed(s: KvState, key: Bytes)
    requires Indexed(s) && !IsReserved(key)
    ensures Indexed(AfterDelete(s, key))
    ensures Live(AfterDelete(s, key)) == if key in s.seen then Live(s) - {key} else Live(s)
    ensures var t := AfterDelete(s, key);
            t.bytes - TotalBytes(t.known, t.data)
            == s.bytes - TotalBytes(s.known, s.data)
               + if key in s.seen then EntryBytes(s.data, key) - EntryBytes(s.seen, key) else 0
  {
    hide IsReserved, Serialized, TotalBytes, EntryBytes, WithIndex, Erased, Distinct;
    if key in s.seen {
      var known, data := Erased(s.known, key), s.data - {key};
      ErasedKeys(s.known, key);
      TotalOfDelete(s.known, s.data, key);
      WithIndexIndexed(data, s.seen - {key}, known, s.bytes - EntryBytes(s.seen, key));
      assert (map k | k in data && !IsReserved(k) :: data[k]) == Live(s) - {key};
    }
  }

  /** Delete keeps the index, and removes the key if and only if the database
      shows it whenever it is there. */
  lemma DeleteLiveIff(s: KvState, key: Bytes)
    requires Indexed(s) && !IsReserved(key)
    ensures Indexed(AfterDelete(s, key))
    ensures Live(AfterDelete(s, key)) == Live(s) - {key} <==> (key in s.data ==> key in s.seen)
  {
    hide TotalBytes, Serialized, AfterDelete, IsReserved;
    DeleteIndexed(s, key);
    assert key in Live(s) <==> key in s.data;
    assert key !in s.data ==> Live(s) - {key} == Live(s);
  }

  /** Delete is map removal with an exact counter if and only if the database
      shows the key whenever it is there, with its size. */
  lemma DeleteAgreesIff(s: KvState, key: Bytes)
    requires Agrees(s) && !IsReserved(key)
    ensures (Agrees(AfterDelete(s, key)) && Live(AfterDelete(s, key)) == Live(s) - {key})
       <==> (EntryBytes(s.seen, key) == EntryBytes(s.data, key) && (key in s.data ==> key in s.seen))
  {
    hide TotalBytes, Serialized;
    DeleteIndexed(s, key);
    if key !in s.seen && key in s.data {
      assert key in Live(s) && AfterDelete(s, key) == s;
    }
    assert key !in s.data ==> Live(s) - {key} == Live(s);
  }

  /** A put over a key behind a popped table counts the key twice. */
  lemma HiddenPut(s: KvState, key: Bytes, value: Bytes)
    requires Agrees(s) && !IsReserved(key) && key in s.data && key !in s.seen && value != TOMBSTONE
    ensures var t := AfterPut(s, key, value);
            t.bytes == TotalBytes(t.known, t.data) + |key| + |s.data[key]|
  {
    hide IsReserved, TotalBytes, Indexed, AfterPut;
    PutIndexedIff(s, key, value);
  }

  /** What a put or delete does to what the database shows is what it does to
      the data, so a key once shown stays shown. */
  lemma PutUnhidden(s: KvState, key: Bytes, value: Bytes, k: Bytes)
    requires Unhidden(s, k) || k == key || k == META_KEY
    ensures Unhidden(AfterPut(s, key, value), k)
  {
    hide Serialized;
  }

  lemma DeleteUnhidden(s: KvState, key: Bytes, k: Bytes)
    requires Unhidden(s, k)
    ensures Unhidden(AfterDelete(s, key), k)
  {
    hide Serialized;
  }

  lemma ReopenedKeys(s: KvState)
    requires Indexed(s)
    ensures AfterReopen(s).known == NonEmpty(SortKeys(s.known))
    ensures AfterReopen(s).bytes == TotalBytes(AfterReopen(s).known, s.data)
  {
    hide IsReserved, Lt, SerializedList, Lines, EntryBytes, KeysOfLines;
    if META_KEY in s.data {
      IndexRoundTrip(SortKeys(s.known));
    }
  }

  lemma ReopenKeeps(s: KvState)
    requires Indexed(s) && [] !in s.known
    ensures AfterReopen(s).known == SortKeys(s.known) && AfterReopen(s).bytes == TotalBytes(s.known, s.data)
    ensures Agrees(AfterReopen(s))
  {
    hide IsReserved, TotalBytes, Lt, SortKeys, Serialized, Lines, AfterReopen, NonEmpty;
    ReopenedKeys(s);
    SortKeysSorts(s.known);
    NonEmptyMembers(SortKeys(s.known));
    AscendingDistinct(SortKeys(s.known));
    TotalSorted(s.known, s.data);
    SerializedSorted(s.known);
    ReopenData(s);
  }

  lemma ReopenData(s: KvState)
    ensures AfterReopen(s).data == AfterReopen(s).seen == s.data
    ensures s.known == [] ==> SortKeys(s.known) == []
  {
  }

  /** Closing and opening rebuilds the index exactly when the empty key is not
      among the known keys: then the same keys, now sorted, an exact byte counter,
      and nothing hidden. */
  lemma ReopenAgreesIff(s: KvState)
    requires Indexed(s)
    ensures Agrees(AfterReopen(s)) <==> [] !in s.known
    ensures [] !in s.known ==>
              AfterReopen(s) == KvState(s.data, s.data, SortKeys(s.known), TotalBytes(s.known, s.data))
    ensures Live(AfterReopen(s)) == Live(s) && Quiet(AfterReopen(s))
  {
    hide IsReserved, TotalBytes, Lt, SortKeys, Serialized, Lines, AfterReopen, NonEmpty;
    ReopenData(s);
    if [] !in s.known {
      ReopenKeeps(s);
    } else {
      ReopenedKeys(s);
      NonEmptyMembers(SortKeys(s.known));
      assert [] !in AfterReopen(s).known && [] in s.data;
    }
  }

  lemma SerializedSorted(known: seq<Bytes>)
    requires Distinct(known)
    ensures Serialized(SortKeys(known)) == Serialized(known)
  {
    SortKeysSorts(known);
    var sorted := SortKeys(known);
    AscendingDistinct(sorted);
    SortKeysSorts(sorted);
    AscendingUnique(SortKeys(sorted), sorted);
  }

  // ---- listing ----

  function WithPrefix(keys: seq<Bytes>, prefix: Bytes): seq<Bytes> {
    if keys == [] then []
    else (if prefix <= keys[0] then [keys[0]] else []) + WithPrefix(keys[1..], prefix)
  }

  /** ListKeysByPrefix. */
  function Listing(s: KvState, prefix: Bytes): seq<Bytes> {
    SortKeys(WithPrefix(s.known, prefix))
  }

  lemma {:induction false} WithPrefixKeys(keys: seq<Bytes>, prefix: Bytes)
    ensures forall k :: k in WithPrefix(keys, prefix) <==> k in keys && prefix <= k
    ensures Distinct(keys) ==> Distinct(WithPrefix(keys, prefix))
  {
    if keys != [] {
      WithPrefixKeys(keys[1..], prefix);
      assert keys == [keys[0]] + keys[1..];
      var rest := WithPrefix(keys[1..], prefix);
      assert Distinct(keys) ==> keys[0] !in keys[1..];
      assert forall i :: 0 <= i < |rest| ==> rest[i] in rest;
    }
  }

  /** A scan lists exactly the live keys with the prefix, in order. */
  lemma ListingIsExact(s: KvState, prefix: Bytes)
    requires Indexed(s)
    ensures Ascending(Listing(s, prefix))
    ensures forall k :: k in Listing(s, prefix) <==> k in Live(s) && prefix <= k
  {
    hide IsReserved, Lt, SortKeys, Serialized, TotalBytes;
    WithPrefixKeys(s.known, prefix);
    SortKeysSorts(WithPrefix(s.known, prefix));
  }

  /** The pairs of a list of keys; a key without a value is skipped. */
  function EntriesOf(keys: seq<Bytes>, data: map<Bytes, Bytes>): seq<Entry> {
    if keys == [] then []
    else (if keys[0] in data then [Entry(keys[0], data[keys[0]])] else []) + EntriesOf(keys[1..], data)
  }

  lemma {:induction false} EntriesPointwise(keys: seq<Bytes>, data: map<Bytes, Bytes>)
    requires forall k :: k in keys ==> k in data
    ensures |EntriesOf(keys, data)| == |keys|
    ensures forall i :: 0 <= i < |keys| ==> EntriesOf(keys, data)[i] == Entry(keys[i], data[keys[i]])
  {
    if keys != [] {
      EntriesPointwise(keys[1..], data);
      assert keys == [keys[0]] + keys[1..];
    }
  }

  /** Any ascending list of exactly the live keys with a prefix is the scan, and
      the pairs returned carry their values when the database shows these keys. */
  lemma ScanIs(s: KvState, prefix: Bytes, keys: seq<Bytes>)
    requires Indexed(s) && Ascending(keys)
    requires forall k :: k in keys <==> k in Live(s) && prefix <= k
    ensures Listing(s, prefix) == keys
    ensures (forall k :: k in keys ==> Unhidden(s, k)) ==>
              var es := EntriesOf(keys, s.seen);
              |es| == |keys| && forall i :: 0 <= i < |keys| ==> es[i] == Entry(keys[i], Live(s)[keys[i]])
  {
    hide IsReserved, Lt, Serialized, TotalBytes;
    ListingIsExact(s, prefix);
    AscendingUnique(Listing(s, prefix), keys);
    assert forall k :: k in keys ==> k in s.data && Live(s)[k] == s.data[k];
    if forall k :: k in keys ==> Unhidden(s, k) {
      assert forall k :: k in keys ==> k in s.seen && s.seen[k] == s.data[k];
      EntriesPointwise(keys, s.seen);
    }
  }

  // ---- batches ----

  /** BatchDelete: stops at the first key it may not touch. */
  function AfterBatchDelete(s: KvState, keys: seq<Bytes>): KvState
    decreases |keys|
  {
    if keys == [] || IsReserved(keys[0]) then s else AfterBatchDelete(AfterDelete(s, keys[0]), keys[1..])
  }

  function AfterBatch(s: KvState, entries: seq<Entry>): KvState
    decreases |entries|
  {
    if entries == [] || IsReserved(entries[0].key) then s
    else AfterBatch(AfterPut(s, entries[0].key, entries[0].value), entries[1..])
  }

  /** A batch is its keys one after another, up to the first reserved one: nothing
      behind that happens. */
  lemma {:induction false} BatchStops(s: KvState, a: seq<Entry>, e: Entry, b: seq<Entry>)
    requires forall i :: 0 <= i < |a| ==> !IsReserved(a[i].key)
    ensures IsReserved(e.key) ==> AfterBatch(s, a + [e] + b) == AfterBatch(s, a)
    ensures !IsReserved(e.key) ==> AfterBatch(s, a + [e]) == AfterPut(AfterBatch(s, a), e.key, e.value)
    decreases |a|
  {
    hide IsReserved, AfterPut;
    if a == [] {
      assert a + [e] == [e] && ([e] + b)[0] == e && [e][1..] == [];
    } else {
      assert (a + [e] + b)[1..] == a[1..] + [e] + b && (a + [e])[1..] == a[1..] + [e];
      BatchStops(AfterPut(s, a[0].key, a[0].value), a[1..], e, b);
    }
  }

  lemma {:induction false} BatchDeleteStops(s: KvState, a: seq<Bytes>, key: Bytes, b: seq<Bytes>)
    requires forall i :: 0 <= i < |a| ==> !IsReserved(a[i])
    ensures IsReserved(key) ==> AfterBatchDelete(s, a + [key] + b) == AfterBatchDelete(s, a)
    ensures !IsReserved(key) ==> AfterBatchDelete(s, a + [key]) == AfterDelete(AfterBatchDelete(s, a), key)
    decreases |a|
  {
    hide IsReserved, AfterDelete;
    if a == [] {
      assert a + [key] == [key] && ([key] + b)[0] == key && [key][1..] == [];
    } else {
      assert (a + [key] + b)[1..] == a[1..] + [key] + b && (a + [key])[1..] == a[1..] + [key];
      BatchDeleteStops(AfterDelete(s, a[0]), a[1..], key, b);
    }
  }

  function PutAll(m: map<Bytes, Bytes>, entries: seq<Entry>): map<Bytes, Bytes>
    decreases |entries|
  {
    if entries == [] then m else PutAll(m[entries[0].key := entries[0].value], entries[1..])
  }

  /** Keys a caller may delete and pairs a caller may put. */
  predicate Ordinary(entries: seq<Entry>) {
    forall i :: 0 <= i < |entries| ==> !IsReserved(entries[i].key) && entries[i].value != TOMBSTONE
  }

  ghost predicate NoneReserved(keys: seq<Bytes>) {
    forall i :: 0 <= i < |keys| ==> !IsReserved(keys[i])
  }

  /** A batch deletion keeps the index, and the counter if its keys are shown. */
  lemma {:induction false} BatchDeleteIndexed(s: KvState, keys: seq<Bytes>)
    requires Indexed(s) && NoneReserved(keys)
    ensures Indexed(AfterBatchDelete(s, keys))
    ensures Agrees(s) && (forall k :: k in keys ==> Unhidden(s, k)) ==> Agrees(AfterBatchDelete(s, keys))
    decreases |keys|
  {
    if keys != [] {
      hide Indexed, AfterDelete, IsReserved, TotalBytes;
      DeleteIndexed(s, keys[0]);
      assert NoneReserved(keys[1..]);
      BatchDeleteIndexed(AfterDelete(s, keys[0]), keys[1..]);
      if Agrees(s) && (forall k :: k in keys ==> Unhidden(s, k)) {
        assert keys[0] in keys;
        forall k | k in keys[1..] ensures Unhidden(AfterDelete(s, keys[0]), k) {
          DeleteUnhidden(s, keys[0], k);
        }
      }
    }
  }

  lemma DeleteFinds(s: KvState, key: Bytes, k: Bytes)
    requires k != META_KEY
    ensures var t := AfterDelete(s, key);
            && Find(t.seen, k) == (if k == key then None else Find(s.seen, k))
            && Find(t.data, k) == (if k == key && key in s.seen then None else Find(s.data, k))
  {
    hide Serialized;
  }

  /** What a batch deletion leaves of each key, shown or not. */
  lemma {:induction false} BatchDeleteFinds(s: KvState, keys: seq<Bytes>, k: Bytes)
    requires NoneReserved(keys) && k != META_KEY
    ensures var t := AfterBatchDelete(s, keys);
            && Find(t.seen, k) == (if k in keys then None else Find(s.seen, k))
            && Find(t.data, k) == (if k in keys && k in s.seen then None else Find(s.data, k))
    decreases |keys|
  {
    if keys != [] {
      hide AfterDelete, IsReserved;
      var t := AfterDelete(s, keys[0]);
      DeleteFinds(s, keys[0], k);
      assert NoneReserved(keys[1..]);
      BatchDeleteFinds(t, keys[1..], k);
      assert keys == [keys[0]] + keys[1..];
      assert k in s.seen <==> Find(s.seen, k).Some?;
      assert k in t.seen <==> Find(t.seen, k).Some?;
    }
  }

  /** A batch deletion removes exactly its keys if and only if the database shows
      each of them that is there. */
  lemma BatchDeleteLiveIff(s: KvState, keys: seq<Bytes>)
    requires Indexed(s) && NoneReserved(keys)
    ensures Live(AfterBatchDelete(s, keys)) == Live(s) - (set k | k in keys)
       <==> forall k :: k in keys && k in s.data ==> k in s.seen
  {
    hide AfterBatchDelete, IsReserved;
    MetaIsReserved();
    var t := AfterBatchDelete(s, keys);
    forall k | !IsReserved(k)
      ensures Find(t.data, k) == if k in keys && k in s.seen then None else Find(s.data, k)
    {
      BatchDeleteFinds(s, keys, k);
    }
    RemovesIff(s, t, keys, s.seen.Keys);
  }

  /** A state whose data have lost those of the keys that were shown. */
  lemma RemovesIff(s: KvState, t: KvState, keys: seq<Bytes>, shown: set<Bytes>)
    requires NoneReserved(keys)
    requires forall k :: !IsReserved(k) ==> Find(t.data, k) == if k in keys && k in shown then None else Find(s.data, k)
    ensures Live(t) == Live(s) - (set k | k in keys) <==> forall k :: k in keys && k in s.data ==> k in shown
  {
    hide IsReserved;
    assert forall k :: k in Live(t) <==> !IsReserved(k) && Find(t.data, k).Some?;
    assert forall k :: k in Live(s) <==> !IsReserved(k) && Find(s.data, k).Some?;
    if k :| k in keys && k in s.data && k !in shown {
      var i :| 0 <= i < |keys| && keys[i] == k;
      assert !IsReserved(keys[i]);
      assert Find(t.data, k) == Find(s.data, k) && k in Live(t);
    }
  }

  /** The byte counter loses what was shown of the keys. */
  lemma {:induction false} BatchDeleteBytes(s: KvState, keys: seq<Bytes>)
    requires Distinct(keys) && NoneReserved(keys)
    ensures AfterBatchDelete(s, keys).bytes == s.bytes - TotalBytes(keys, s.seen)
    decreases |keys|
  {
    if keys != [] {
      hide AfterDelete, IsReserved;
      var t := AfterDelete(s, keys[0]);
      var rest := keys[1..];
      DeleteBytes(s, keys[0]);
      assert NoneReserved(rest) && keys[0] !in rest;
      forall k | k in rest && k != keys[0] ensures Find(s.seen, k) == Find(t.seen, k) {
        MetaIsReserved();
        DeleteFinds(s, keys[0], k);
      }
      TotalMoves(rest, s.seen, t.seen, keys[0]);
      BatchDeleteBytes(t, rest);
    }
  }

  lemma DeleteBytes(s: KvState, key: Bytes)
    ensures AfterDelete(s, key).bytes == s.bytes - EntryBytes(s.seen, key)
  {
  }

  lemma PutFinds(s: KvState, key: Bytes, value: Bytes, k: Bytes)
    requires value != TOMBSTONE && k != META_KEY
    ensures var t := AfterPut(s, key, value);
            && Find(t.seen, k) == Find(s.seen[key := value], k)
            && Find(t.data, k) == Find(s.data[key := value], k)
  {
    hide Serialized;
  }

  /** PutAll looks at its map only where the batch says nothing. */
  lemma {:induction false} PutAllSame(a: map<Bytes, Bytes>, b: map<Bytes, Bytes>, entries: seq<Entry>, k: Bytes)
    requires Find(a, k) == Find(b, k)
    ensures Find(PutAll(a, entries), k) == Find(PutAll(b, entries), k)
    decreases |entries|
  {
    if entries != [] {
      var e := entries[0];
      PutAllSame(a[e.key := e.value], b[e.key := e.value], entries[1..], k);
    }
  }

  /** What a batch leaves of each key, shown or not. */
  lemma {:induction false} BatchFinds(s: KvState, entries: seq<Entry>, k: Bytes)
    requires Ordinary(entries) && k != META_KEY
    ensures var t := AfterBatch(s, entries);
            && Find(t.seen, k) == Find(PutAll(s.seen, entries), k)
            && Find(t.data, k) == Find(PutAll(s.data, entries), k)
    decreases |entries|
  {
    if entries != [] {
      hide AfterPut, IsReserved;
      var e := entries[0];
      var t := AfterPut(s, e.key, e.value);
      PutFinds(s, e.key, e.value, k);
      assert Ordinary(entries[1..]);
      BatchFinds(t, entries[1..], k);
      PutAllSame(t.seen, s.seen[e.key := e.value], entries[1..], k);
      PutAllSame(t.data, s.data[e.key := e.value], entries[1..], k);
    }
  }

  /** A batch of ordinary pairs keeps the index and is the fold of map updates,
      whatever the database shows; the counter needs its keys shown. */
  lemma {:induction false} BatchLive(s: KvState, entries: seq<Entry>)
    requires Indexed(s) && Ordinary(entries)
    ensures Indexed(AfterBatch(s, entries))
    ensures Live(AfterBatch(s, entries)) == PutAll(Live(s), entries)
    ensures Agrees(s) && (forall i :: 0 <= i < |entries| ==> Unhidden(s, entries[i].key)) ==>
              Agrees(AfterBatch(s, entries))
    decreases |entries|
  {
    if entries != [] {
      hide Indexed, Live, AfterPut, IsReserved, TotalBytes;
      var e := entries[0];
      PutIndexedIff(s, e.key, e.value);
      BatchLive(AfterPut(s, e.key, e.value), entries[1..]);
      if Agrees(s) && (forall i :: 0 <= i < |entries| ==> Unhidden(s, entries[i].key)) {
        forall i | 0 <= i < |entries[1..]| ensures Unhidden(AfterPut(s, e.key, e.value), entries[1..][i].key) {
          PutUnhidden(s, e.key, e.value, entries[i + 1].key);
        }
      }
    }
  }

  /** Clear leaves no key if and only if every known key is shown, and then no
      byte if and only if their sizes are shown right in total. */
  lemma ClearEmptiesIff(s: KvState)
    requires Agrees(s)
    ensures var t := AfterBatchDelete(s, s.known);
            && Indexed(t) && t.bytes == TotalBytes(s.known, s.data) - TotalBytes(s.known, s.seen)
            && (t.known == [] <==> forall k :: k in s.known ==> k in s.seen)
            && (Live(t) == map[] <==> t.known == [])
            && (Agrees(t) && t.known == [] <==> t.bytes == 0 && t.known == [])
  {
    hide AfterBatchDelete, IsReserved, Serialized;
    var t := AfterBatchDelete(s, s.known);
    assert forall i :: 0 <= i < |s.known| ==> s.known[i] in s.known;
    BatchDeleteIndexed(s, s.known);
    BatchDeleteBytes(s, s.known);
    BatchDeleteLiveIff(s, s.known);
    assert Live(s) - (set k | k in s.known) == map[];
    assert forall k :: k in t.known <==> k in Live(t);
    SomeKey(t.known);
  }

  lemma SomeKey(keys: seq<Bytes>)
    ensures |keys| > 0 ==> exists k :: k in keys
  {
    if |keys| > 0 { assert keys[0] in keys; }
  }

  // ---- batches while the flusher moves ----

  /** BatchDelete with steps of the flusher in between: views[i] is what the
      database shows when the i-th deletion looks for its key. */
  function AfterDeletesVia(s: KvState, keys: seq<Bytes>, views: seq<map<Bytes, Bytes>>): KvState
    requires |views| == |keys|
    decreases |keys|
  {
    if keys == [] || IsReserved(keys[0]) then s
    else AfterDeletesVia(AfterDelete(s.(seen := views[0]), keys[0]), keys[1..], views[1..])
  }

  /** Batch with steps of the flusher in between. */
  function AfterPutsVia(s: KvState, entries: seq<Entry>, views: seq<map<Bytes, Bytes>>): KvState
    requires |views| == |entries|
    decreases |entries|
  {
    if entries == [] || IsReserved(entries[0].key) then s
    else AfterPutsVia(AfterPut(s.(seen := views[0]), entries[0].key, entries[0].value), entries[1..], views[1..])
  }

  /** The keys that were shown when it was their turn. */
  function ShownAt(keys: seq<Bytes>, views: seq<map<Bytes, Bytes>>): set<Bytes>
    requires |views| == |keys|
  {
    set i | 0 <= i < |keys| && keys[i] in views[i] :: keys[i]
  }

  lemma {:induction false} DeletesViaFinds(s: KvState, keys: seq<Bytes>, views: seq<map<Bytes, Bytes>>, k: Bytes)
    requires |views| == |keys| && NoneReserved(keys) && k != META_KEY
    ensures Find(AfterDeletesVia(s, keys, views).data, k) == if k in ShownAt(keys, views) then None else Find(s.data, k)
    decreases |keys|
  {
    if keys != [] {
      hide AfterDelete, IsReserved;
      DeleteFinds(s.(seen := views[0]), keys[0], k);
      assert NoneReserved(keys[1..]);
      DeletesViaFinds(AfterDelete(s.(seen := views[0]), keys[0]), keys[1..], views[1..], k);
      ShownAtFirst(keys, views, k);
    }
  }

  lemma ShownAtFirst(keys: seq<Bytes>, views: seq<map<Bytes, Bytes>>, k: Bytes)
    requires |views| == |keys| > 0
    ensures k in ShownAt(keys, views) <==> (k == keys[0] && k in views[0]) || k in ShownAt(keys[1..], views[1..])
  {
    if k in ShownAt(keys, views) {
      var i :| 0 <= i < |keys| && keys[i] in views[i] && keys[i] == k;
      assert i == 0 || (keys[1..][i - 1] in views[1..][i - 1] && keys[1..][i - 1] == k);
    }
    if k in ShownAt(keys[1..], views[1..]) {
      var i :| 0 <= i < |keys[1..]| && keys[1..][i] in views[1..][i] && keys[1..][i] == k;
      assert keys[i + 1] in views[i + 1] && keys[i + 1] == k;
    }
  }

  /** However the flusher moves, the index is kept, and the batch removes exactly
      its keys if and only if each of them that is there is shown when it is its
      turn. */
  lemma DeletesViaLiveIff(s: KvState, keys: seq<Bytes>, views: seq<map<Bytes, Bytes>>)
    requires |views| == |keys| && Indexed(s) && NoneReserved(keys)
    ensures Indexed(AfterDeletesVia(s, keys, views))
    ensures Live(AfterDeletesVia(s, keys, views)) == Live(s) - (set k | k in keys)
       <==> forall k :: k in keys && k in s.data ==> k in ShownAt(keys, views)
  {
    hide AfterDeletesVia, IsReserved, Indexed, ShownAt;
    MetaIsReserved();
    DeletesViaIndexed(s, keys, views);
    var t, shown := AfterDeletesVia(s, keys, views), ShownAt(keys, views);
    forall k | !IsReserved(k) ensures Find(t.data, k) == if k in keys && k in shown then None else Find(s.data, k) {
      DeletesViaFinds(s, keys, views, k);
      ShownAreKeys(keys, views, k);
    }
    RemovesIff(s, t, keys, shown);
  }

  lemma ShownAreKeys(keys: seq<Bytes>, views: seq<map<Bytes, Bytes>>, k: Bytes)
    requires |views| == |keys|
    ensures k in ShownAt(keys, views) ==> k in keys
  {
  }

  lemma {:induction false} DeletesViaIndexed(s: KvState, keys: seq<Bytes>, views: seq<map<Bytes, Bytes>>)
    requires |views| == |keys| && Indexed(s) && NoneReserved(keys)
    ensures Indexed(AfterDeletesVia(s, keys, views))
    decreases |keys|
  {
    if keys != [] {
      hide AfterDelete, IsReserved, TotalBytes, Live;
      var t := s.(seen := views[0]);
      assert Indexed(t) && NoneReserved(keys[1..]);
      hide Indexed;
      DeleteIndexed(t, keys[0]);
      DeletesViaIndexed(AfterDelete(t, keys[0]), keys[1..], views[1..]);
    }
  }

  /** However the flusher moves, a batch of ordinary pairs is the fold of map
      updates and keeps the index. */
  lemma {:induction false} PutsViaLive(s: KvState, entries: seq<Entry>, views: seq<map<Bytes, Bytes>>)
    requires |views| == |entries| && Indexed(s) && Ordinary(entries)
    ensures Indexed(AfterPutsVia(s, entries, views))
    ensures Live(AfterPutsVia(s, entries, views)) == PutAll(Live(s), entries)
    decreases |entries|
  {
    if entries != [] {
      hide AfterPut, IsReserved, TotalBytes;
      var t, e := s.(seen := views[0]), entries[0];
      assert Indexed(t) && Live(t) == Live(s) && Ordinary(entries[1..]);
      hide Indexed, Live;
      PutIndexedIff(t, e.key, e.value);
      PutsViaLive(AfterPut(t, e.key, e.value), entries[1..], views[1..]);
    }
  }

  /** With a flusher that stands still these are the batches above. */
  lemma {:induction false} DeletesViaStill(s: KvState, keys: seq<Bytes>) returns (views: seq<map<Bytes, Bytes>>)
    ensures |views| == |keys| && AfterDeletesVia(s, keys, views) == AfterBatchDelete(s, keys)
    decreases |keys|
  {
    hide AfterDelete, IsReserved;
    if keys == [] {
      views := [];
    } else {
      assert s.(seen := s.seen) == s;
      var rest := DeletesViaStill(AfterDelete(s, keys[0]), keys[1..]);
      views := [s.seen] + rest;
      assert views[1..] == rest;
    }
  }

  lemma {:induction false} PutsViaStill(s: KvState, entries: seq<Entry>) returns (views: seq<map<Bytes, Bytes>>)
    ensures |views| == |entries| && AfterPutsVia(s, entries, views) == AfterBatch(s, entries)
    decreases |entries|
  {
    hide AfterPut, IsReserved;
    if entries == [] {
      views := [];
    } else {
      assert s.(seen := s.seen) == s;
      var rest := PutsViaStill(AfterPut(s, entries[0].key, entries[0].value), entries[1..]);
      views := [s.seen] + rest;
      assert views[1..] == rest;
    }
  }

  // ---- runs ----

  /** Calls of users, steps of the flusher (which change only what the database
      shows), and restarts. */
  datatype Op =
    | PutOp(key: Bytes, value: Bytes)
    | DeleteOp(key: Bytes)
    | ClearOp
    | FlushOp(shown: map<Bytes, Bytes>)
    | ReopenOp

  function AfterOp(s: KvState, op: Op): KvState {
    match op
    case PutOp(key, value) => AfterPut(s, key, value)
    case DeleteOp(key) => AfterDelete(s, key)
    case ClearOp => AfterBatchDelete(s, s.known)
    case FlushOp(shown) => s.(seen := shown)
    case ReopenOp => AfterReopen(s)
  }

  function MapAfter(m: map<Bytes, Bytes>, op: Op): map<Bytes, Bytes> {
    match op
    case PutOp(key, value) => m[key := value]
    case DeleteOp(key) => m - {key}
    case ClearOp => map[]
    case FlushOp(_) => m
    case ReopenOp => m
  }

  /** An ordinary operation, whose keys the database shows when it is called; the
      store refuses reserved keys itself. */
  predicate Allowed(s: KvState, op: Op) {
    match op
    case PutOp(key, value) =>
      key != [] && !IsReserved(key) && value != TOMBSTONE && EntryBytes(s.seen, key) == EntryBytes(s.data, key)
    case DeleteOp(key) =>
      !IsReserved(key) && EntryBytes(s.seen, key) == EntryBytes(s.data, key) && (key in s.data ==> key in s.seen)
    case ClearOp =>
      (forall i :: 0 <= i < |s.known| ==> s.known[i] in s.seen)
      && TotalBytes(s.known, s.seen) == TotalBytes(s.known, s.data)
    case FlushOp(_) => true
    case ReopenOp => true
  }

  predicate AllAllowed(s: KvState, ops: seq<Op>)
    decreases |ops|
  {
    ops == [] || (Allowed(s, ops[0]) && AllAllowed(AfterOp(s, ops[0]), ops[1..]))
  }

  function Run(s: KvState, ops: seq<Op>): KvState
    decreases |ops|
  {
    if ops == [] then s else Run(AfterOp(s, ops[0]), ops[1..])
  }

  function MapRun(m: map<Bytes, Bytes>, ops: seq<Op>): map<Bytes, Bytes>
    decreases |ops|
  {
    if ops == [] then m else MapRun(MapAfter(m, ops[0]), ops[1..])
  }

  lemma {:induction false} RunConcat(s: KvState, p: seq<Op>, q: seq<Op>)
    ensures Run(s, p + q) == Run(Run(s, p), q)
    decreases |p|
  {
    if p == [] {
      assert p + q == q;
    } else {
      hide AfterOp;
      assert (p + q)[1..] == p[1..] + q;
      RunConcat(AfterOp(s, p[0]), p[1..], q);
    }
  }

  /** A batch with steps of the flusher in between, as single operations. */
  function DeleteOps(keys: seq<Bytes>, views: seq<map<Bytes, Bytes>>): seq<Op>
    requires |views| == |keys|
    decreases |keys|
  {
    if keys == [] then [] else [FlushOp(views[0]), DeleteOp(keys[0])] + DeleteOps(keys[1..], views[1..])
  }

  function PutOps(entries: seq<Entry>, views: seq<map<Bytes, Bytes>>): seq<Op>
    requires |views| == |entries|
    decreases |entries|
  {
    if entries == [] then []
    else [FlushOp(views[0]), PutOp(entries[0].key, entries[0].value)] + PutOps(entries[1..], views[1..])
  }

  lemma RunPair(s: KvState, a: Op, b: Op)
    ensures Run(s, [a, b]) == AfterOp(AfterOp(s, a), b)
  {
    hide AfterOp;
    assert [a, b][1..] == [b] && [b][1..] == [];
    assert Run(AfterOp(s, a), [b]) == Run(AfterOp(AfterOp(s, a), b), []);
  }

  lemma {:induction false} DeletesViaIsRun(s: KvState, keys: seq<Bytes>, views: seq<map<Bytes, Bytes>>)
    requires |views| == |keys| && NoneReserved(keys)
    ensures AfterDeletesVia(s, keys, views) == Run(s, DeleteOps(keys, views))
    decreases |keys|
  {
    if keys != [] {
      hide AfterDelete, IsReserved, Run;
      assert NoneReserved(keys[1..]);
      RunConcat(s, [FlushOp(views[0]), DeleteOp(keys[0])], DeleteOps(keys[1..], views[1..]));
      RunPair(s, FlushOp(views[0]), DeleteOp(keys[0]));
      DeletesViaIsRun(AfterDelete(s.(seen := views[0]), keys[0]), keys[1..], views[1..]);
    } else {
      assert DeleteOps(keys, views) == [];
    }
  }

  lemma {:induction false} PutsViaIsRun(s: KvState, entries: seq<Entry>, views: seq<map<Bytes, Bytes>>)
    requires |views| == |entries| && Ordinary(entries)
    ensures AfterPutsVia(s, entries, views) == Run(s, PutOps(entries, views))
    decreases |entries|
  {
    if entries != [] {
      hide AfterPut, IsReserved, Run;
      var e := entries[0];
      assert Ordinary(entries[1..]);
      RunConcat(s, [FlushOp(views[0]), PutOp(e.key, e.value)], PutOps(entries[1..], views[1..]));
      RunPair(s, FlushOp(views[0]), PutOp(e.key, e.value));
      PutsViaIsRun(AfterPut(s.(seen := views[0]), e.key, e.value), entries[1..], views[1..]);
    } else {
      assert PutOps(entries, views) == [];
    }
  }

  /** An operation does to the map what it should and keeps index and counter if
      and only if it is allowed. */
  lemma AllowedIff(s: KvState, op: Op)
    requires Agrees(s) && [] !in s.known
    requires (op.PutOp? ==> op.key != []) && (op.PutOp? || op.DeleteOp? ==> !IsReserved(op.key))
    ensures (Agrees(AfterOp(s, op)) && Live(AfterOp(s, op)) == MapAfter(Live(s), op)) <==> Allowed(s, op)
  {
    hide IsReserved, AfterPut, AfterDelete, AfterBatchDelete, AfterReopen, Serialized, TotalBytes, SortKeys, EntryBytes;
    match op
    case PutOp(key, value) => PutAgreesIff(s, key, value);
    case DeleteOp(key) => DeleteAgreesIff(s, key);
    case ClearOp => ClearEmptiesIff(s);
    case FlushOp(_) =>
    case ReopenOp => ReopenAgreesIff(s);
  }

  lemma OpKeeps(s: KvState, op: Op)
    requires Agrees(s) && [] !in s.known && Allowed(s, op)
    ensures Agrees(AfterOp(s, op)) && [] !in AfterOp(s, op).known
    ensures Live(AfterOp(s, op)) == MapAfter(Live(s), op)
  {
    hide IsReserved, AfterOp, Live, MapAfter, TotalBytes, EntryBytes;
    AllowedIff(s, op);
    NoEmptyKey(s, op);
  }

  lemma NoEmptyKey(s: KvState, op: Op)
    requires Indexed(s) && [] !in s.known && (op.PutOp? ==> op.key != []) && Indexed(AfterOp(s, op))
    ensures [] !in AfterOp(s, op).known
  {
    hide IsReserved, AfterBatchDelete, AfterReopen, Serialized, SortKeys;
    match op
    case PutOp(key, value) =>
    case DeleteOp(key) => ErasedKeys(s.known, key);
    case ClearOp =>
      assert forall i :: 0 <= i < |s.known| ==> s.known[i] in s.known;
      BatchDeleteFinds(s, s.known, []);
    case FlushOp(_) =>
    case ReopenOp =>
      ReopenAgreesIff(s);
      SortKeysMembers(s.known, []);
  }

  /** Over every run of puts, deletes, clears, flusher steps and reopenings the
      index agrees with the data and the store is a plain map, if each call finds
      what it needs shown; AllowedIff says that it needs exactly that. */
  lemma {:induction false} RunIsMap(s: KvState, ops: seq<Op>)
    requires Agrees(s) && [] !in s.known && AllAllowed(s, ops)
    ensures Agrees(Run(s, ops)) && [] !in Run(s, ops).known
    ensures Live(Run(s, ops)) == MapRun(Live(s), ops)
    ensures Run(s, ops).bytes >= 0
    decreases |ops|
  {
    if ops != [] {
      hide Agrees, Live, AfterOp, Allowed;
      OpKeeps(s, ops[0]);
      RunIsMap(AfterOp(s, ops[0]), ops[1..]);
    }
  }
}
