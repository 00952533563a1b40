/** A run of the database that reaches a state in which a whole session is hidden
    from the conversation store. */
module HiddenSessions {
  import opened ByteOrder
  import opened Runs
  import opened DbModel
  import opened EmptyKey
  import opened Codec
  import opened Keyspace
  import opened KeyIndex
  import opened KvStore
  import opened Records
  import opened Conversations

  // ---- a table that holds what a store holds ----

  function TableOf(s: KvState): Table {
    EntriesOf(SortKeys(s.known + [META_KEY]), s.data)
  }

  /** No stored value reads as a deletion. */
  predicate NoTombstones(data: map<Bytes, Bytes>) {
    forall k :: k in data ==> data[k] != TOMBSTONE
  }

  lemma {:induction false} BatchNoTombstones(s: KvState, entries: seq<Entry>)
    requires NoTombstones(s.data)
    ensures NoTombstones(AfterBatch(s, entries).data)
    decreases |entries|
  {
    hide Serialized, IsReserved;
    if entries != [] {
      var t := AfterPut(s, entries[0].key, entries[0].value);
      assert NoTombstones(t.data);
      BatchNoTombstones(t, entries[1..]);
    }
  }

  lemma TableIs(s: KvState)
    requires Indexed(s) && [] !in s.known && META_KEY in s.data && NoTombstones(s.data)
    ensures GoodFlush(TableOf(s))
    ensures forall k: Bytes :: Find(s.data, k) == Visible(Lookup(TableOf(s), k))
  {
    hide SortKeys, Serialized, Lt, Lookup, EntriesOf, IsReserved;
    var listed := s.known + [META_KEY];
    MetaIsReserved();
    assert Distinct(listed);
    SortKeysSorts(listed);
    var keys, t := SortKeys(listed), TableOf(s);
    assert forall k :: k in keys <==> k in s.data;
    EntriesPointwise(keys, s.data);
    assert META_KEY in keys && keys[0] in keys;
    forall k: Bytes ensures Find(s.data, k) == Visible(Lookup(t, k)) {
      if k in s.data {
        var i :| 0 <= i < |keys| && keys[i] == k;
        assert t[i] == Entry(k, s.data[k]);
        LookupAt(t, i);
      } else {
        assert forall i :: 0 <= i < |t| ==> t[i].key in keys;
        assert !HasKey(t, k);
      }
    }
  }

  // ---- reaching it ----

  function Writes(t: Table): seq<Step> {
    seq(|t|, i requires 0 <= i < |t| => Write(t[i].key, t[i].value))
  }

  lemma UpsertLast(t: Table, n: nat)
    requires Sorted(t) && n < |t|
    ensures Upsert(t[..n], t[n].key, t[n].value) == t[..n + 1]
  {
    hide Lt;
    var p := Position(t[..n], t[n].key);
    assert p == n;
    assert t[..n + 1] == t[..n] + [t[n]] + t[..n][n..];
  }

  lemma {:induction false} PlayWrites(t: Table, n: nat)
    requires Sorted(t) && n <= |t|
    ensures Play(Fresh(), Writes(t[..n])) == Some(Fresh().(active := t[..n]))
  {
    if n == 0 {
      assert Writes(t[..0]) == [];
      assert Play(Fresh(), []) == Some(Fresh());
    } else {
      hide Upsert, Lt;
      var step, s := Write(t[n - 1].key, t[n - 1].value), Fresh().(active := t[..n - 1]);
      PlayWrites(t, n - 1);
      assert Writes(t[..n]) == Writes(t[..n - 1]) + [step];
      PlayConcat(Fresh(), Writes(t[..n - 1]), [step], s);
      UpsertLast(t, n - 1);
      assert [step][1..] == [];
      assert Play(s, [step]) == Play(After(s, step, FileSize), []);
    }
  }

  /** Writing a table key by key, rotating and popping it. */
  lemma PoppedIsReached(t: Table)
    requires GoodFlush(t)
    ensures Play(Fresh(), Writes(t) + [Swap, Enqueue, Pop]) == Some(Fresh().(flushing := Some(t)))
  {
    hide Upsert, Lt;
    assert t[..|t|] == t;
    PlayWrites(t, |t|);
    var steps := [Swap, Enqueue, Pop];
    var s0 := Fresh().(active := t);
    var s1 := s0.(active := [], pending := Some(t));
    var s2 := s1.(pending := None, queue := [t]);
    var s3 := s2.(queue := [], flushing := Some(t));
    PlayConcat(Fresh(), Writes(t), steps, s0);
    assert [] + [t] == [t] && [t][1..] == [];
    assert steps[1..] == [Enqueue, Pop] && steps[1..][1..] == [Pop] && [Pop][1..] == [];
    assert Play(s0, steps) == Play(s1, [Enqueue, Pop]);
    assert Play(s1, [Enqueue, Pop]) == Play(s2, [Pop]);
    assert Play(s2, [Pop]) == Play(s3, []);
  }

  const NOTHING: KvState := KvState(map[], map[], [], 0)

  lemma EmptyIsOrdinary()
    ensures !IsReserved([])
  {
  }

  lemma SavedIntoNothing(was: ConversationSession)
    requires was.sessionId != [] && |was.turns| <= UINT32_MAX
    ensures var x := AfterSave(NOTHING, was);
            Indexed(x) && [] !in x.known && META_KEY in x.data && NoTombstones(x.data) && Holds(x, was)
  {
    hide SessionEntries, PutAll, MetaOf, LegacyOf, TurnOf, PrefixOf, OnRecord, OnlySpeak, AfterBatch, IsReserved,
         SerializeSummary, SerializeLegacy, Serialized;
    var x, id := AfterSave(NOTHING, was), IdOf(was);
    SaveIndexed(NOTHING, was);
    assert Swept(NOTHING, id) == NOTHING;
    BatchNoTombstones(NOTHING, SessionEntries(was));
    assert NoLeftTurns(NOTHING, id, |was.turns|, NOTHING.seen.Keys);
    SaveHolds(NOTHING, was);
    RecordKeysOrdinary(id);
    forall n | 0 <= n < |was.turns| ensures TurnOf(id, n) != [] && TurnOf(id, n) != MetaOf(id) {
      TurnKeyOrdinary(id, n);
      KeysApart(id, id, n);
    }
    EmptyIsOrdinary();
    SaveMisses(NOTHING, was, []);
    SaveMisses(NOTHING, was, MetaOf(id));
    assert MetaOf(id) in x.known;
  }

  /** Some run from a fresh database leads to what the store holds and shows. */
  ghost predicate Reached(s: KvState) {
    exists steps, d :: Play(Fresh(), steps) == Some(d) && DbInvariant(d) && d.pending.None?
                       && Answers(d, s.data) && Shows(d, s.seen)
  }

  /** From a fresh database some run writes a session and lets the flusher take the
      table; the store then holds the session and shows nothing, and AppendTurn
      replaces the first turn instead of adding one. */
  lemma HiddenSessionIsReached(was: ConversationSession, model: Bytes, turn: ConversationTurn)
    requires was.sessionId != [] && 1 <= |was.turns| <= UINT32_MAX && AllSpoken(was.turns) && turn.role != []
    ensures var s := AfterSave(NOTHING, was).(seen := map[]);
            && Reached(s)
            && Stored(s, IdOf(was)) == Some(was) && SessionAt(s, IdOf(was)) == None
            && var after := Stored(AfterAppend(s, IdOf(was), model, turn), IdOf(was));
               after.Some? && after.value.turns == [turn] + was.turns[1..]
  {
    hide Indexed, AfterSave, OnRecord, OnlySpeak, Stored, SessionAt, DbInvariant, Answers, Shows, Play, TableOf,
         NoTombstones, HiddenTurns, Visible, Lookup;
    var x := AfterSave(NOTHING, was);
    var s, t := x.(seen := map[]), TableOf(x);
    SavedIntoNothing(was);
    TableIs(x);
    PoppedHidesAll(t, x.data);
    PoppedIsReached(t);
    assert Play(Fresh(), Writes(t) + [Swap, Enqueue, Pop]) == Some(Fresh().(flushing := Some(t)));
    Unshown(x, was);
    AppendHidden(s, was, model, turn);
    assert s.seen.Keys == {};
    AllHidden(IdOf(was), was.turns);
  }

  lemma Unshown(x: KvState, was: ConversationSession)
    requires Indexed(x) && Holds(x, was)
    ensures Indexed(x.(seen := map[])) && Holds(x.(seen := map[]), was)
  {
    hide OnRecord, OnlySpeak, IsReserved, Serialized;
    assert Settled(x.(seen := map[])) == Settled(x);
  }

  lemma {:induction false} AllUnseen(id: Id, n: nat, count: nat)
    requires n <= count
    ensures |Unseen(id, n, count, {})| == count - n
    ensures forall i :: 0 <= i < count - n ==> Unseen(id, n, count, {})[i] == n + i
    decreases count - n
  {
    hide TurnOf;
    if n < count { AllUnseen(id, n + 1, count); }
  }

  lemma AllHidden(id: Id, turns: seq<ConversationTurn>)
    requires turns != []
    ensures HiddenTurns(id, turns, 1, {}) == turns[1..]
  {
    hide Unseen;
    AllUnseen(id, 1, |turns|);
  }
}
