/** Conversations over the key-value store, as functions of the store's state:
    one summary record, one legacy record and one record for each turn. */
module Conversations {
  import opened ByteOrder
  import opened Runs
  import opened Codec
  import opened Keyspace
  import opened DbModel
  import opened KeyIndex
  import opened Records

  datatype Id = Id(tenant: Bytes, appId: Bytes, sessionId: Bytes)

  function IdOf(session: ConversationSession): Id {
    Id(session.tenant, session.appId, session.sessionId)
  }

  function MetaOf(id: Id): Bytes { MetaKey(id.tenant, id.appId, id.sessionId) }

  function LegacyOf(id: Id): Bytes { SessionKey(id.tenant, id.appId, id.sessionId) }

  function PrefixOf(id: Id): Bytes { TurnPrefix(id.tenant, id.appId, id.sessionId) }

  function TurnOf(id: Id, n: nat): Bytes { TurnKey(id.tenant, id.appId, id.sessionId, n) }

  // ---- reading ----

  /** The turns that parse, in scan order. */
  function TurnsIn(entries: seq<Entry>): seq<ConversationTurn> {
    if entries == [] then []
    else
      var t := ParsedTurn(entries[0].value);
      (if t.Some? then [t.value] else []) + TurnsIn(entries[1..])
  }

  function Scan(s: KvState, prefix: Bytes): seq<Entry> {
    EntriesOf(Listing(s, prefix), s.seen)
  }

  /** ConversationStore::ListTurns. */
  function TurnsOf(s: KvState, id: Id): seq<ConversationTurn> {
    TurnsIn(Scan(s, PrefixOf(id)))
  }

  /** ConversationStore::Get. */
  function SessionAt(s: KvState, id: Id): Option<ConversationSession> {
    match Find(s.seen, MetaOf(id))
    case Some(payload) =>
      (match ParsedSummary(payload)
       case None => None
       case Some(m) => Some(ConversationSession(m.tenant, m.appId, m.sessionId, m.model, TurnsOf(s, id))))
    case None =>
      (match Find(s.seen, LegacyOf(id))
       case None => None
       case Some(payload) => ParsedLegacy(payload))
  }

  /** The keys of one session. */
  predicate Mine(id: Id, key: Bytes) {
    PrefixOf(id) <= key || key == MetaOf(id) || key == LegacyOf(id)
  }

  /** The database shows everything of the session as it is. */
  ghost predicate Clear(s: KvState, id: Id) {
    forall k :: Mine(id, k) ==> Unhidden(s, k)
  }

  /** The store when the flusher holds nothing. */
  function Settled(s: KvState): KvState {
    s.(seen := s.data)
  }

  /** The session that is stored, whatever the flusher holds. */
  function Stored(s: KvState, id: Id): Option<ConversationSession> {
    SessionAt(Settled(s), id)
  }

  // ---- writing ----

  function LastTimestamp(turns: seq<ConversationTurn>): Int64 {
    if turns == [] then 0 else turns[|turns| - 1].createdAtMs
  }

  function SummaryOf(session: ConversationSession): ConversationSummary
    requires |session.turns| <= UINT32_MAX
  {
    ConversationSummary(session.tenant, session.appId, session.sessionId, session.model,
                        |session.turns|, LastTimestamp(session.turns))
  }

  /** The records of the turns from number n on. */
  function TurnEntries(id: Id, turns: seq<ConversationTurn>, n: nat): seq<Entry>
    requires n <= |turns|
    decreases |turns| - n
  {
    if n == |turns| then []
    else [Entry(TurnOf(id, n), SerializeTurn(turns[n]))] + TurnEntries(id, turns, n + 1)
  }

  function HeadEntries(session: ConversationSession): seq<Entry>
    requires |session.turns| <= UINT32_MAX
  {
    [Entry(LegacyOf(IdOf(session)), SerializeLegacy(session)),
     Entry(MetaOf(IdOf(session)), SerializeSummary(SummaryOf(session)))]
  }

  function SessionEntries(session: ConversationSession): seq<Entry>
    requires |session.turns| <= UINT32_MAX
  {
    HeadEntries(session) + TurnEntries(IdOf(session), session.turns, 0)
  }

  /** ConversationStore::Save with a session id. */
  function AfterSave(s: KvState, session: ConversationSession): KvState
    requires |session.turns| <= UINT32_MAX
  {
    AfterBatch(AfterBatchDelete(s, Listing(s, PrefixOf(IdOf(session)))), SessionEntries(session))
  }

  /** The keys that Delete deletes. */
  function Removals(s: KvState, id: Id): seq<Bytes> {
    Listing(s, PrefixOf(id)) + [MetaOf(id), LegacyOf(id)]
  }

  /** ConversationStore::Delete. */
  function AfterDrop(s: KvState, id: Id): KvState {
    AfterBatchDelete(s, Removals(s, id))
  }

  // ---- the keys of one session ----

  /** Where the keys of one session stand to the turn prefix and the record keys
      of any session. */
  lemma KeysApart(id: Id, other: Id, n: nat)
    requires n <= UINT32_MAX
    ensures !(PrefixOf(other) <= MetaOf(id)) && !(PrefixOf(other) <= LegacyOf(id))
    ensures PrefixOf(other) <= TurnOf(id, n) <==> other == id
    ensures TurnOf(id, n) != MetaOf(other) && TurnOf(id, n) != LegacyOf(other)
    ensures MetaOf(id) != LegacyOf(other)
    ensures (MetaOf(id) == MetaOf(other) <==> id == other) && (LegacyOf(id) == LegacyOf(other) <==> id == other)
  {
    hide MetaKey, SessionKey, TurnKey, TurnPrefix, Text;
    var m, l := Meta(id.tenant, id.appId, id.sessionId), Session(id.tenant, id.appId, id.sessionId);
    var t := Turn(id.tenant, id.appId, id.sessionId, n);
    TextIs(id, n);
    TextIs(other, n);
    TurnScanIsExact(other.tenant, other.appId, other.sessionId, m);
    TurnScanIsExact(other.tenant, other.appId, other.sessionId, l);
    TurnScanIsExact(other.tenant, other.appId, other.sessionId, t);
    var om, ol := Meta(other.tenant, other.appId, other.sessionId), Session(other.tenant, other.appId, other.sessionId);
    Distinguish(t, om);
    Distinguish(t, ol);
    Distinguish(m, ol);
    Distinguish(m, om);
    Distinguish(l, ol);
  }

  lemma TextIs(id: Id, n: nat)
    ensures MetaKey(id.tenant, id.appId, id.sessionId) == Text(Meta(id.tenant, id.appId, id.sessionId))
    ensures SessionKey(id.tenant, id.appId, id.sessionId) == Text(Session(id.tenant, id.appId, id.sessionId))
    ensures TurnKey(id.tenant, id.appId, id.sessionId, n) == Text(Turn(id.tenant, id.appId, id.sessionId, n))
  {
  }

  lemma Distinguish(j: Key, k: Key)
    requires InRange(j) && InRange(k)
    ensures Text(j) == Text(k) <==> j == k
  {
    if Text(j) == Text(k) { KeyInjective(j, k); }
  }

  /** No key lies under the turn prefixes of two sessions. */
  lemma PrefixesApart(a: Id, b: Id, key: Bytes)
    requires PrefixOf(a) <= key && PrefixOf(b) <= key
    ensures a == b
  {
    hide TurnPrefix;
    var p, q := PrefixOf(a), PrefixOf(b);
    if |p| <= |q| {
      assert p <= q by { assert p == key[..|p|] && q == key[..|q|]; }
      PrefixInPrefix(a, b);
    } else {
      assert q <= p by { assert p == key[..|p|] && q == key[..|q|]; }
      PrefixInPrefix(b, a);
    }
  }

  lemma PrefixInPrefix(a: Id, b: Id)
    requires PrefixOf(a) <= PrefixOf(b)
    ensures a == b
  {
    hide TurnPrefix, TurnKey, Joined, EscapedKey, FormatSequence;
    var k := Turn(b.tenant, b.appId, b.sessionId, 0);
    TextIs(b, 0);
    TurnScanIsExact(b.tenant, b.appId, b.sessionId, k);
    assert PrefixOf(a) <= Text(k);
    TurnScanIsExact(a.tenant, a.appId, a.sessionId, k);
  }

  /** Keys a batch does not mention keep their value. */
  lemma {:induction false} PutAllMisses(m: map<Bytes, Bytes>, entries: seq<Entry>, key: Bytes)
    requires forall i :: 0 <= i < |entries| ==> entries[i].key != key
    ensures Find(PutAll(m, entries), key) == Find(m, key)
    decreases |entries|
  {
    if entries != [] {
      PutAllMisses(m[entries[0].key := entries[0].value], entries[1..], key);
    }
  }

  lemma {:induction false} PutAllConcat(m: map<Bytes, Bytes>, p: seq<Entry>, q: seq<Entry>)
    ensures PutAll(m, p + q) == PutAll(PutAll(m, p), q)
    decreases |p|
  {
    if p == [] {
      assert p + q == q;
    } else {
      assert (p + q)[1..] == p[1..] + q;
      PutAllConcat(m[p[0].key := p[0].value], p[1..], q);
    }
  }

  lemma {:induction false} TurnEntriesAt(id: Id, turns: seq<ConversationTurn>, n: nat)
    requires n <= |turns|
    ensures var es := TurnEntries(id, turns, n);
            |es| == |turns| - n
            && forall i :: 0 <= i < |es| ==> es[i] == Entry(TurnOf(id, n + i), SerializeTurn(turns[n + i]))
    decreases |turns| - n
  {
    hide TurnOf, SerializeTurn;
    if n < |turns| {
      TurnEntriesAt(id, turns, n + 1);
    }
  }

  lemma TurnKeysDiffer(id: Id, m: nat, n: nat)
    requires m <= UINT32_MAX && n <= UINT32_MAX
    ensures TurnOf(id, m) == TurnOf(id, n) <==> m == n
  {
    hide TurnKey, Text;
    TextIs(id, m);
    TextIs(id, n);
    Distinguish(Turn(id.tenant, id.appId, id.sessionId, m), Turn(id.tenant, id.appId, id.sessionId, n));
  }

  lemma {:induction false} TurnEntriesHit(m: map<Bytes, Bytes>, id: Id, turns: seq<ConversationTurn>, n: nat, j: nat)
    requires n <= j < |turns| <= UINT32_MAX
    ensures Find(PutAll(m, TurnEntries(id, turns, n)), TurnOf(id, j)) == Some(SerializeTurn(turns[j]))
    decreases j - n
  {
    hide TurnOf, SerializeTurn;
    var e := Entry(TurnOf(id, n), SerializeTurn(turns[n]));
    var rest := TurnEntries(id, turns, n + 1);
    assert TurnEntries(id, turns, n) == [e] + rest && ([e] + rest)[1..] == rest;
    if j > n {
      TurnEntriesHit(m[e.key := e.value], id, turns, n + 1, j);
    } else {
      TurnEntriesAt(id, turns, n + 1);
      forall i | 0 <= i < |rest| ensures rest[i].key != e.key {
        TurnKeysDiffer(id, n + 1 + i, n);
      }
      PutAllMisses(m[e.key := e.value], rest, e.key);
    }
  }

  // ---- what Save leaves in the store ----

  lemma SessionEntriesOrdinary(session: ConversationSession)
    requires |session.turns| <= UINT32_MAX
    ensures Ordinary(SessionEntries(session))
  {
    hide SerializeTurn, SerializeSummary, SerializeLegacy, SessionKey, MetaKey, TurnKey, IsReserved, Text;
    var id := IdOf(session);
    TextIs(id, 0);
    TextIsOrdinary(Session(id.tenant, id.appId, id.sessionId));
    TextIsOrdinary(Meta(id.tenant, id.appId, id.sessionId));
    LegacyRoundTrip(session);
    SummaryRoundTrip(SummaryOf(session));
    TurnEntriesAt(id, session.turns, 0);
    var es := TurnEntries(id, session.turns, 0);
    forall i | 0 <= i < |es| ensures !IsReserved(es[i].key) && es[i].value != TOMBSTONE {
      TextIs(id, i);
      TextIsOrdinary(Turn(id.tenant, id.appId, id.sessionId, i));
      TurnRoundTrip(session.turns[i]);
    }
  }

  lemma StaleKeys(s: KvState, prefix: Bytes)
    requires Indexed(s)
    ensures NoneReserved(Listing(s, prefix))
    ensures forall k :: k in Listing(s, prefix) <==> k in s.data && !IsReserved(k) && prefix <= k
  {
    hide Listing, Indexed, IsReserved;
    ListingIsExact(s, prefix);
    var keys := Listing(s, prefix);
    forall i | 0 <= i < |keys| ensures !IsReserved(keys[i]) {
      assert keys[i] in keys;
    }
  }

  lemma HeadPut(m: map<Bytes, Bytes>, session: ConversationSession)
    requires |session.turns| <= UINT32_MAX
    ensures PutAll(m, HeadEntries(session))
         == m[LegacyOf(IdOf(session)) := SerializeLegacy(session)]
             [MetaOf(IdOf(session)) := SerializeSummary(SummaryOf(session))]
  {
    hide SerializeLegacy, SerializeSummary, LegacyOf, MetaOf;
    var es := HeadEntries(session);
    assert es[1..][1..] == [];
    assert PutAll(m, es) == PutAll(m[es[0].key := es[0].value], es[1..]);
    assert PutAll(m[es[0].key := es[0].value], es[1..])
        == PutAll(m[es[0].key := es[0].value][es[1].key := es[1].value], []);
  }

  /** A key that is no turn of the session. */
  ghost predicate NoTurn(id: Id, count: nat, key: Bytes) {
    forall n :: 0 <= n < count ==> TurnOf(id, n) != key
  }

  /** What the records of a session put where no turn is. */
  lemma PutMisses(m: map<Bytes, Bytes>, session: ConversationSession, key: Bytes)
    requires |session.turns| <= UINT32_MAX && NoTurn(IdOf(session), |session.turns|, key)
    ensures Find(PutAll(m, SessionEntries(session)), key)
         == if key == MetaOf(IdOf(session)) then Some(SerializeSummary(SummaryOf(session)))
            else if key == LegacyOf(IdOf(session)) then Some(SerializeLegacy(session))
            else Find(m, key)
  {
    hide SerializeLegacy, SerializeSummary, SerializeTurn, MetaOf, LegacyOf, TurnOf, HeadEntries, PutAll;
    var id := IdOf(session);
    var turns := TurnEntries(id, session.turns, 0);
    PutAllConcat(m, HeadEntries(session), turns);
    HeadPut(m, session);
    TurnEntriesAt(id, session.turns, 0);
    PutAllMisses(PutAll(m, HeadEntries(session)), turns, key);
    KeysApart(id, id, 0);
  }

  lemma PutHits(m: map<Bytes, Bytes>, session: ConversationSession, n: nat)
    requires n < |session.turns| <= UINT32_MAX
    ensures Find(PutAll(m, SessionEntries(session)), TurnOf(IdOf(session), n)) == Some(SerializeTurn(session.turns[n]))
  {
    hide SerializeTurn, TurnOf, TurnEntries, HeadEntries, PutAll;
    PutAllConcat(m, HeadEntries(session), TurnEntries(IdOf(session), session.turns, 0));
    TurnEntriesHit(PutAll(m, HeadEntries(session)), IdOf(session), session.turns, 0, n);
  }

  /** The state between the deletions and the writes of Save. */
  function Swept(s: KvState, id: Id): KvState {
    AfterBatchDelete(s, Listing(s, PrefixOf(id)))
  }

  /** Save as two batches: what each key becomes in the data and in what is shown. */
  lemma SaveFinds(s: KvState, session: ConversationSession, key: Bytes)
    requires Indexed(s) && |session.turns| <= UINT32_MAX && !IsReserved(key)
    ensures var t, u, es := Swept(s, IdOf(session)), AfterSave(s, session), SessionEntries(session);
            && Find(u.data, key) == Find(PutAll(t.data, es), key)
            && Find(u.seen, key) == Find(PutAll(t.seen, es), key)
  {
    hide Indexed, AfterBatchDelete, AfterBatch, Listing, SessionEntries, PrefixOf, PutAll, Ordinary, IsReserved;
    MetaIsReserved();
    SessionEntriesOrdinary(session);
    BatchFinds(Swept(s, IdOf(session)), SessionEntries(session), key);
  }

  /** The sweep deletes the turns that are shown, and takes the others for absent. */
  lemma SweptFinds(s: KvState, id: Id, key: Bytes)
    requires Indexed(s) && !IsReserved(key)
    ensures var t := Swept(s, id);
            && Find(t.data, key) == (if PrefixOf(id) <= key && key in s.seen then None else Find(s.data, key))
            && Find(t.seen, key) == (if PrefixOf(id) <= key && key in s.data then None else Find(s.seen, key))
  {
    hide Indexed, AfterBatchDelete, Listing, PrefixOf, IsReserved;
    MetaIsReserved();
    StaleKeys(s, PrefixOf(id));
    BatchDeleteFinds(s, Listing(s, PrefixOf(id)), key);
  }

  lemma SaveIndexed(s: KvState, session: ConversationSession)
    requires Indexed(s) && |session.turns| <= UINT32_MAX
    ensures Indexed(AfterSave(s, session))
    ensures Agrees(s) && Clear(s, IdOf(session)) ==> Agrees(AfterSave(s, session))
  {
    hide Indexed, AfterBatchDelete, AfterBatch, Listing, Ordinary, PrefixOf, IsReserved, TotalBytes, MetaOf, LegacyOf;
    var id := IdOf(session);
    var keys, es := Listing(s, PrefixOf(id)), SessionEntries(session);
    StaleKeys(s, PrefixOf(id));
    SessionEntriesOrdinary(session);
    BatchDeleteIndexed(s, keys);
    BatchLive(Swept(s, id), es);
    if Agrees(s) && Clear(s, id) {
      assert forall k :: k in keys ==> Mine(id, k);
      SessionKeysMine(session);
      forall i | 0 <= i < |es| ensures Unhidden(Swept(s, id), es[i].key) {
        SweptUnhidden(s, id, es[i].key);
      }
    }
  }

  lemma SweptUnhidden(s: KvState, id: Id, key: Bytes)
    requires Indexed(s) && Clear(s, id) && Mine(id, key) && !IsReserved(key)
    ensures Unhidden(Swept(s, id), key)
  {
    hide Indexed, Swept, PrefixOf, IsReserved, MetaOf, LegacyOf;
    assert Unhidden(s, key);
    SweptFinds(s, id, key);
  }

  lemma SessionKeysMine(session: ConversationSession)
    requires |session.turns| <= UINT32_MAX
    ensures var es := SessionEntries(session);
            forall i :: 0 <= i < |es| ==> Mine(IdOf(session), es[i].key) && !IsReserved(es[i].key)
  {
    hide SerializeTurn, SerializeSummary, SerializeLegacy, MetaOf, LegacyOf, TurnOf, PrefixOf, IsReserved;
    var id := IdOf(session);
    SessionEntriesOrdinary(session);
    TurnEntriesAt(id, session.turns, 0);
    forall n | 0 <= n < |session.turns| ensures PrefixOf(id) <= TurnOf(id, n) {
      KeysApart(id, id, n);
    }
  }

  /** What Save leaves under a key that is no turn. */
  lemma SaveMisses(s: KvState, session: ConversationSession, key: Bytes)
    requires Indexed(s) && |session.turns| <= UINT32_MAX
    requires NoTurn(IdOf(session), |session.turns|, key) && !IsReserved(key)
    ensures var u, id := AfterSave(s, session), IdOf(session);
            if key == MetaOf(id) then
              Find(u.data, key) == Find(u.seen, key) == Some(SerializeSummary(SummaryOf(session)))
            else if key == LegacyOf(id) then
              Find(u.data, key) == Find(u.seen, key) == Some(SerializeLegacy(session))
            else if PrefixOf(id) <= key then
              && Find(u.data, key) == (if key in s.seen then None else Find(s.data, key))
              && Find(u.seen, key) == (if key in s.data then None else Find(s.seen, key))
            else
              Find(u.data, key) == Find(s.data, key) && Find(u.seen, key) == Find(s.seen, key)
  {
    hide Indexed, AfterSave, SerializeLegacy, SerializeSummary, MetaOf, LegacyOf, TurnOf, PrefixOf, Swept,
         SessionEntries, PutAll, IsReserved;
    var t := Swept(s, IdOf(session));
    SaveFinds(s, session, key);
    SweptFinds(s, IdOf(session), key);
    PutMisses(t.data, session, key);
    PutMisses(t.seen, session, key);
  }

  lemma SaveHits(s: KvState, session: ConversationSession, n: nat)
    requires Indexed(s) && n < |session.turns| <= UINT32_MAX
    ensures Find(AfterSave(s, session).data, TurnOf(IdOf(session), n)) == Some(SerializeTurn(session.turns[n]))
    ensures Unhidden(AfterSave(s, session), TurnOf(IdOf(session), n))
  {
    hide Indexed, AfterSave, SerializeTurn, TurnOf, Swept, SessionEntries, PutAll, IsReserved;
    var id := IdOf(session);
    TurnKeyOrdinary(id, n);
    SaveFinds(s, session, TurnOf(id, n));
    PutHits(Swept(s, id).data, session, n);
    PutHits(Swept(s, id).seen, session, n);
  }

  lemma TurnKeyOrdinary(id: Id, n: nat)
    ensures !IsReserved(TurnOf(id, n)) && TurnOf(id, n) != []
  {
    hide Text, TurnKey, IsReserved;
    TextIs(id, n);
    TextIsOrdinary(Turn(id.tenant, id.appId, id.sessionId, n));
  }

  // ---- reading back ----

  lemma RecordKeysOrdinary(id: Id)
    ensures !IsReserved(MetaOf(id)) && !IsReserved(LegacyOf(id))
    ensures MetaOf(id) != [] && LegacyOf(id) != []
  {
    hide Text, MetaKey, SessionKey, IsReserved;
    TextIs(id, 0);
    TextIsOrdinary(Meta(id.tenant, id.appId, id.sessionId));
    TextIsOrdinary(Session(id.tenant, id.appId, id.sessionId));
  }

  /** A session as it can be read back: turns without a role are dropped. */
  function SpokenTurns(turns: seq<ConversationTurn>): seq<ConversationTurn> {
    if turns == [] then []
    else (if turns[0].role == [] then [] else [turns[0]]) + SpokenTurns(turns[1..])
  }

  function Readable(session: ConversationSession): ConversationSession {
    session.(turns := SpokenTurns(session.turns))
  }

  ghost predicate AllSpoken(turns: seq<ConversationTurn>) {
    forall i :: 0 <= i < |turns| ==> turns[i].role != []
  }

  lemma {:induction false} SpokenTurnsIff(turns: seq<ConversationTurn>)
    ensures SpokenTurns(turns) == turns <==> AllSpoken(turns)
    ensures |SpokenTurns(turns)| <= |turns| && AllSpoken(SpokenTurns(turns))
  {
    if turns != [] {
      SpokenTurnsIff(turns[1..]);
      assert turns == [turns[0]] + turns[1..];
      var rest := SpokenTurns(turns[1..]);
      if turns[0].role == [] {
        assert |SpokenTurns(turns)| < |turns|;
      } else {
        assert AllSpoken(turns) <==> AllSpoken(turns[1..]);
        assert SpokenTurns(turns) == turns <==> rest == turns[1..];
      }
    }
  }

  lemma {:induction false} TurnsInRecords(entries: seq<Entry>, turns: seq<ConversationTurn>)
    requires |entries| == |turns|
    requires forall i :: 0 <= i < |turns| ==> entries[i].value == SerializeTurn(turns[i])
    ensures TurnsIn(entries) == SpokenTurns(turns)
  {
    if turns != [] {
      hide SerializeTurn, ParsedTurn;
      TurnRoundTrip(turns[0]);
      TurnsInRecords(entries[1..], turns[1..]);
    }
  }

  function TurnKeys(id: Id, count: nat): (keys: seq<Bytes>)
    ensures |keys| == count && forall i :: 0 <= i < count ==> keys[i] == TurnOf(id, i)
  {
    seq(count, i requires 0 <= i => TurnOf(id, i))
  }

  lemma TurnKeysAscend(id: Id, count: nat)
    requires count <= UINT32_MAX
    ensures Ascending(TurnKeys(id, count))
  {
    hide Lt, TurnKey;
    var keys := TurnKeys(id, count);
    forall i, j | 0 <= i < j < |keys| ensures Lt(keys[i], keys[j]) {
      TurnOrder(id.tenant, id.appId, id.sessionId, i, j);
    }
  }

  // ---- scans ----

  /** The map holds a turn under the key. */
  predicate Speaks(m: map<Bytes, Bytes>, key: Bytes) {
    key in m && ParsedTurn(m[key]).Some?
  }

  function Speaking(keys: seq<Bytes>, m: map<Bytes, Bytes>): seq<Bytes> {
    if keys == [] then [] else (if Speaks(m, keys[0]) then [keys[0]] else []) + Speaking(keys[1..], m)
  }

  /** The turns of a scan are those of the keys that speak, one for each. */
  lemma {:induction false} SpeakingTurns(keys: seq<Bytes>, m: map<Bytes, Bytes>)
    ensures |TurnsIn(EntriesOf(keys, m))| == |Speaking(keys, m)|
    ensures TurnsIn(EntriesOf(keys, m)) == TurnsIn(EntriesOf(Speaking(keys, m), m))
  {
    if keys != [] {
      hide ParsedTurn;
      SpeakingTurns(keys[1..], m);
      var rest, es := Speaking(keys[1..], m), EntriesOf(keys[1..], m);
      if keys[0] !in m {
        assert EntriesOf(keys, m) == es && Speaking(keys, m) == rest;
      } else {
        var e := Entry(keys[0], m[keys[0]]);
        assert EntriesOf(keys, m) == [e] + es && ([e] + es)[1..] == es;
        if Speaks(m, keys[0]) {
          assert ([keys[0]] + rest)[1..] == rest;
          assert EntriesOf([keys[0]] + rest, m) == [e] + EntriesOf(rest, m);
          assert ([e] + EntriesOf(rest, m))[1..] == EntriesOf(rest, m);
        } else {
          assert Speaking(keys, m) == rest;
        }
      }
    }
  }

  lemma {:induction false} SpeakingKeys(keys: seq<Bytes>, m: map<Bytes, Bytes>)
    ensures forall k :: k in Speaking(keys, m) <==> k in keys && Speaks(m, k)
    ensures Ascending(keys) ==> Ascending(Speaking(keys, m))
  {
    if keys != [] {
      hide Lt, Speaks;
      SpeakingKeys(keys[1..], m);
      assert keys == [keys[0]] + keys[1..];
      var rest := Speaking(keys[1..], m);
      assert forall i :: 0 <= i < |rest| ==> rest[i] in keys[1..];
    }
  }

  lemma {:induction false} DistinctCount(keys: seq<Bytes>)
    requires Distinct(keys)
    ensures |set k | k in keys| == |keys|
  {
    if keys != [] {
      DistinctCount(keys[1..]);
      assert (set k | k in keys) == {keys[0]} + (set k | k in keys[1..]);
    }
  }

  lemma SameCount(a: seq<Bytes>, b: seq<Bytes>)
    requires Distinct(a) && Distinct(b) && |a| == |b| && forall k :: k in b ==> k in a
    ensures forall k :: k in a ==> k in b
  {
    DistinctCount(a);
    DistinctCount(b);
    var x, y := set k | k in a, set k | k in b;
    assert |x - y| == |x| - |y| by { assert x * y == y; }
    forall k | k in a ensures k in b {
      assert k in x && k !in x - y;
    }
  }

  /** A longer list of keys gives the same turns if and only if what it has more
      does not speak. */
  lemma MoreKeysIff(a: seq<Bytes>, b: seq<Bytes>, m: map<Bytes, Bytes>)
    requires Ascending(a) && Ascending(b) && forall k :: k in b ==> k in a
    ensures TurnsIn(EntriesOf(a, m)) == TurnsIn(EntriesOf(b, m)) <==> forall k :: k in a && Speaks(m, k) ==> k in b
  {
    hide TurnsIn, EntriesOf, Speaks, Lt;
    var p, q := Speaking(a, m), Speaking(b, m);
    SpeakingTurns(a, m);
    SpeakingTurns(b, m);
    SpeakingKeys(a, m);
    SpeakingKeys(b, m);
    if forall k :: k in a && Speaks(m, k) ==> k in b {
      AscendingUnique(p, q);
    }
    if |p| == |q| {
      AscendingDistinct(p);
      AscendingDistinct(q);
      SameCount(p, q);
    }
  }

  /** Nothing under the prefix speaks but the given keys. */
  ghost predicate OnlySpeak(t: KvState, id: Id, keys: seq<Bytes>) {
    forall k :: PrefixOf(id) <= k && k in t.data && Speaks(t.seen, k) ==> k in keys
  }

  /** Records of turns under the given keys, all of them shown. */
  ghost predicate Recorded(t: KvState, id: Id, keys: seq<Bytes>, turns: seq<ConversationTurn>) {
    && |keys| == |turns|
    && forall i :: 0 <= i < |keys| ==>
         && PrefixOf(id) <= keys[i] && !IsReserved(keys[i])
         && Find(t.data, keys[i]) == Find(t.seen, keys[i]) == Some(SerializeTurn(turns[i]))
  }

  /** A scan over records of turns gives these turns if and only if nothing else
      under the prefix speaks. */
  lemma ScanGivesIff(t: KvState, id: Id, keys: seq<Bytes>, turns: seq<ConversationTurn>)
    requires Indexed(t) && Ascending(keys) && Recorded(t, id, keys, turns)
    ensures TurnsOf(t, id) == SpokenTurns(turns) <==> OnlySpeak(t, id, keys)
  {
    hide Indexed, PrefixOf, SerializeTurn, Ascending, Listing, EntriesOf, ParsedTurn, IsReserved, Speaks;
    var listed := Listing(t, PrefixOf(id));
    ListingIsExact(t, PrefixOf(id));
    assert forall k :: k in Live(t) <==> k in t.data && !IsReserved(k);
    forall k | k in keys ensures k in listed && k in t.seen {
      var i :| 0 <= i < |keys| && keys[i] == k;
    }
    EntriesPointwise(keys, t.seen);
    TurnsInRecords(EntriesOf(keys, t.seen), turns);
    MoreKeysIff(listed, keys, t.seen);
    forall k | PrefixOf(id) <= k ensures !IsReserved(k) { MineOrdinary(id, k); }
  }

  /** No key of a session is reserved or empty. */
  lemma MineOrdinary(id: Id, key: Bytes)
    requires Mine(id, key)
    ensures !IsReserved(key) && key != []
  {
    RecordKeysOrdinary(id);
    if PrefixOf(id) <= key {
      hide TurnPrefix, TurnKey, Text, FormatSequence, EscapedKey;
      PrefixOrdinary(id);
      assert key[0] == PrefixOf(id)[0];
    }
  }

  lemma PrefixOrdinary(id: Id)
    ensures PrefixOf(id) != [] && PrefixOf(id)[0] != '_'
  {
    hide TurnPrefix, TurnKey, Text, Joined, Parts, EscapedKey, FormatSequence;
    var k := Turn(id.tenant, id.appId, id.sessionId, 0);
    TextIs(id, 0);
    TurnScanIsExact(id.tenant, id.appId, id.sessionId, k);
    StartsPlain(k);
    NonEmptyPrefix(id);
  }

  lemma NonEmptyPrefix(id: Id)
    ensures PrefixOf(id) != []
  {
    hide SessionKey, EscapedKey;
  }

  // ---- saving ----

  /** The records of a session are in the store, and shown. */
  ghost predicate OnRecord(t: KvState, session: ConversationSession)
    requires |session.turns| <= UINT32_MAX
  {
    && Find(t.seen, MetaOf(IdOf(session))) == Some(SerializeSummary(SummaryOf(session)))
    && Recorded(t, IdOf(session), TurnKeys(IdOf(session), |session.turns|), session.turns)
  }

  lemma GetIff(t: KvState, session: ConversationSession)
    requires Indexed(t) && session.sessionId != [] && |session.turns| <= UINT32_MAX && OnRecord(t, session)
    ensures SessionAt(t, IdOf(session)) == Some(Readable(session))
       <==> OnlySpeak(t, IdOf(session), TurnKeys(IdOf(session), |session.turns|))
    ensures SessionAt(t, IdOf(session)).Some?
         && SessionAt(t, IdOf(session)).value == session.(turns := TurnsOf(t, IdOf(session)))
  {
    hide Indexed, TurnsOf, PrefixOf, MetaOf, LegacyOf, TurnOf, ParsedSummary, SerializeSummary, IsReserved,
         Recorded, OnlySpeak, Ascending;
    var id := IdOf(session);
    SummaryRoundTrip(SummaryOf(session));
    TurnKeysAscend(id, |session.turns|);
    ScanGivesIff(t, id, TurnKeys(id, |session.turns|), session.turns);
  }

  lemma SaveWrites(s: KvState, session: ConversationSession)
    requires Indexed(s) && |session.turns| <= UINT32_MAX
    ensures OnRecord(AfterSave(s, session), session) && OnRecord(Settled(AfterSave(s, session)), session)
  {
    hide Indexed, AfterSave, PrefixOf, MetaOf, LegacyOf, TurnOf, SerializeSummary, SerializeLegacy, SerializeTurn,
         IsReserved;
    var id := IdOf(session);
    forall n | 0 <= n < |session.turns|
      ensures TurnOf(id, n) != MetaOf(id) && PrefixOf(id) <= TurnOf(id, n) && !IsReserved(TurnOf(id, n))
      ensures Find(AfterSave(s, session).data, TurnOf(id, n)) == Some(SerializeTurn(session.turns[n]))
      ensures Unhidden(AfterSave(s, session), TurnOf(id, n))
    {
      KeysApart(id, id, n);
      TurnKeyOrdinary(id, n);
      SaveHits(s, session, n);
    }
    RecordKeysOrdinary(id);
    SaveMisses(s, session, MetaOf(id));
  }

  /** Get after Save, over any earlier contents of the store and at any step of the
      flusher: the same session, turns in order, without the turns that have no
      role. */
  lemma SaveThenGet(s: KvState, session: ConversationSession)
    requires Indexed(s) && session.sessionId != [] && |session.turns| <= UINT32_MAX
    ensures Indexed(AfterSave(s, session))
    ensures SessionAt(AfterSave(s, session), IdOf(session)) == Some(Readable(session))
    ensures SessionAt(AfterSave(s, session), IdOf(session)) == Some(session) <==> AllSpoken(session.turns)
  {
    hide Indexed, AfterSave, SessionAt, PrefixOf, MetaOf, LegacyOf, TurnOf, OnRecord, SerializeSummary, SerializeLegacy,
         IsReserved, ParsedTurn;
    var t, id := AfterSave(s, session), IdOf(session);
    var keys := TurnKeys(id, |session.turns|);
    SaveIndexed(s, session);
    SaveWrites(s, session);
    forall k | PrefixOf(id) <= k && k in t.data && k !in keys ensures k !in t.seen {
      SavedUnder(s, session, k);
    }
    GetIff(t, session);
    SpokenTurnsIff(session.turns);
  }

  /** Under the prefix, and no turn of the session: what is in the data then was
      there before, and Save has not seen it. */
  lemma SavedUnder(s: KvState, session: ConversationSession, key: Bytes)
    requires Indexed(s) && |session.turns| <= UINT32_MAX
    requires PrefixOf(IdOf(session)) <= key && key !in TurnKeys(IdOf(session), |session.turns|)
    ensures Find(AfterSave(s, session).data, key) == if key in s.seen then None else Find(s.data, key)
    ensures key in AfterSave(s, session).data ==> key !in AfterSave(s, session).seen
  {
    hide Indexed, AfterSave, PrefixOf, MetaOf, LegacyOf, TurnOf, SerializeSummary, SerializeLegacy, IsReserved;
    var id := IdOf(session);
    MineOrdinary(id, key);
    KeysApart(id, id, 0);
    NoTurnIff(id, |session.turns|, key);
    SaveMisses(s, session, key);
  }

  lemma NoTurnIff(id: Id, count: nat, key: Bytes)
    ensures NoTurn(id, count, key) <==> key !in TurnKeys(id, count)
  {
    hide TurnOf;
    var keys := TurnKeys(id, count);
    assert forall n :: 0 <= n < count ==> keys[n] == TurnOf(id, n);
  }

  /** Apart from the keys that are shown and from the first turns, nothing that
      is stored for the session is a turn. */
  ghost predicate NoLeftTurns(s: KvState, id: Id, count: nat, shown: set<Bytes>) {
    forall k :: PrefixOf(id) <= k && k in s.data && k !in shown && k !in TurnKeys(id, count) ==>
      ParsedTurn(s.data[k]).None?
  }

  /** The data under the prefix are those before without what was shown, with the
      new turns on top. */
  ghost predicate Replaced(s: KvState, u: KvState, id: Id, count: nat, shown: set<Bytes>) {
    forall k :: PrefixOf(id) <= k && k !in TurnKeys(id, count) ==>
      Find(u.data, k) == if k in shown then None else Find(s.data, k)
  }

  lemma LeftIff(s: KvState, u: KvState, id: Id, count: nat, shown: set<Bytes>)
    requires Replaced(s, u, id, count, shown)
    ensures OnlySpeak(Settled(u), id, TurnKeys(id, count)) <==> NoLeftTurns(s, id, count, shown)
  {
    hide PrefixOf, TurnOf, ParsedTurn;
    var keys := TurnKeys(id, count);
    forall k | PrefixOf(id) <= k && k !in keys
      ensures Speaks(u.data, k) <==> k in s.data && k !in shown && ParsedTurn(s.data[k]).Some?
    {
      assert Find(u.data, k) == if k in shown then None else Find(s.data, k);
    }
  }

  /** What Save leaves in the store is the session if and only if no hidden turn
      is left over: those that Save could not see, and does not overwrite. */
  lemma SaveStoredIff(s: KvState, session: ConversationSession)
    requires Indexed(s) && session.sessionId != [] && |session.turns| <= UINT32_MAX
    ensures Stored(AfterSave(s, session), IdOf(session)) == Some(Readable(session))
       <==> NoLeftTurns(s, IdOf(session), |session.turns|, s.seen.Keys)
  {
    hide Indexed, AfterSave, SessionAt, PrefixOf, TurnOf, OnRecord, NoLeftTurns, OnlySpeak, Replaced;
    var u, id := AfterSave(s, session), IdOf(session);
    SaveIndexed(s, session);
    SettledIndexed(u);
    SaveWrites(s, session);
    GetIff(Settled(u), session);
    SaveReplaces(s, session);
    LeftIff(s, u, id, |session.turns|, s.seen.Keys);
  }

  lemma SaveReplaces(s: KvState, session: ConversationSession)
    requires Indexed(s) && |session.turns| <= UINT32_MAX
    ensures Replaced(s, AfterSave(s, session), IdOf(session), |session.turns|, s.seen.Keys)
  {
    hide Indexed, AfterSave, PrefixOf, TurnOf;
    var id := IdOf(session);
    forall k | PrefixOf(id) <= k && k !in TurnKeys(id, |session.turns|)
      ensures Find(AfterSave(s, session).data, k) == if k in s.seen then None else Find(s.data, k)
    {
      SavedUnder(s, session, k);
    }
  }

  // ---- the records that are left ----

  /** The summary that stands under the key of a session. */
  function SummaryAt(m: map<Bytes, Bytes>, id: Id): Option<ConversationSummary> {
    if MetaOf(id) in m then ParsedSummary(m[MetaOf(id)]) else None
  }

  /** A summary that tells the identifier, the model, the number of turns and the
      time of the last one. */
  ghost predicate Sums(m: Option<ConversationSummary>, id: Id, model: Bytes, turns: seq<ConversationTurn>) {
    && m.Some? && m.value.tenant == id.tenant && m.value.appId == id.appId && m.value.sessionId == id.sessionId
    && m.value.model == model && m.value.turnCount == |turns|
    && m.value.updatedAtMs == if turns == [] then 0 else turns[|turns| - 1].createdAtMs
  }

  /** Save leaves the summary of the session, and the whole session as its legacy
      record, stored and shown. */
  lemma SaveRecords(s: KvState, session: ConversationSession)
    requires Indexed(s) && session.sessionId != [] && |session.turns| <= UINT32_MAX
    ensures var u, id := AfterSave(s, session), IdOf(session);
            && Sums(SummaryAt(u.seen, id), id, session.model, session.turns)
            && Sums(SummaryAt(u.data, id), id, session.model, session.turns)
            && LegacyOf(id) in u.seen && ParsedLegacy(u.seen[LegacyOf(id)]) == Some(session)
            && LegacyOf(id) in u.data && ParsedLegacy(u.data[LegacyOf(id)]) == Some(session)
  {
    hide Indexed, AfterSave, PrefixOf, MetaOf, LegacyOf, TurnOf, SerializeSummary, SerializeLegacy, ParsedSummary,
         ParsedLegacy, IsReserved;
    var id := IdOf(session);
    forall n | 0 <= n < |session.turns| ensures TurnOf(id, n) != MetaOf(id) && TurnOf(id, n) != LegacyOf(id) {
      KeysApart(id, id, n);
    }
    KeysApart(id, id, 0);
    RecordKeysOrdinary(id);
    SaveMisses(s, session, MetaOf(id));
    SaveMisses(s, session, LegacyOf(id));
    SummaryRoundTrip(SummaryOf(session));
    LegacyRoundTrip(session);
  }

  /** A session of which only the legacy record is shown is read from that, whole. */
  lemma LegacyIsRead(s: KvState, session: ConversationSession)
    requires session.sessionId != [] && MetaOf(IdOf(session)) !in s.seen
    requires Find(s.seen, LegacyOf(IdOf(session))) == Some(SerializeLegacy(session))
    ensures SessionAt(s, IdOf(session)) == Some(session)
  {
    hide MetaOf, LegacyOf, SerializeLegacy, ParsedLegacy, TurnsOf, ParsedSummary;
    LegacyRoundTrip(session);
  }

  // ---- other sessions ----

  /** Two states that hold and show the same under the keys of a session. */
  ghost predicate SameUnder(s: KvState, t: KvState, id: Id) {
    forall k :: Mine(id, k) ==> Find(s.data, k) == Find(t.data, k) && Find(s.seen, k) == Find(t.seen, k)
  }

  lemma {:induction false} SameEntries(keys: seq<Bytes>, a: map<Bytes, Bytes>, b: map<Bytes, Bytes>)
    requires forall k :: k in keys ==> Find(a, k) == Find(b, k)
    ensures EntriesOf(keys, a) == EntriesOf(keys, b)
  {
    if keys != [] {
      assert keys[0] in keys;
      SameEntries(keys[1..], a, b);
    }
  }

  lemma SameScan(s: KvState, t: KvState, id: Id)
    requires Indexed(s) && Indexed(t) && SameUnder(s, t, id)
    ensures Scan(s, PrefixOf(id)) == Scan(t, PrefixOf(id))
  {
    hide Indexed, PrefixOf, MetaOf, LegacyOf, Listing, EntriesOf, Ascending, IsReserved;
    var prefix := PrefixOf(id);
    var keys := Listing(s, prefix);
    ListingIsExact(s, prefix);
    forall k ensures k in keys <==> k in Live(t) && prefix <= k {
      assert prefix <= k ==> Mine(id, k);
      assert k in s.data <==> Find(s.data, k).Some?;
      assert k in t.data <==> Find(t.data, k).Some?;
    }
    ScanIs(t, prefix, keys);
    forall k | k in keys ensures Find(s.seen, k) == Find(t.seen, k) {
      assert Mine(id, k);
    }
    SameEntries(keys, s.seen, t.seen);
  }

  lemma SameSession(s: KvState, t: KvState, id: Id)
    requires Indexed(s) && Indexed(t) && SameUnder(s, t, id)
    ensures SessionAt(s, id) == SessionAt(t, id)
  {
    hide Indexed, PrefixOf, MetaOf, LegacyOf, Scan, TurnsIn, ParsedSummary, ParsedLegacy;
    SameScan(s, t, id);
    assert Mine(id, MetaOf(id)) && Mine(id, LegacyOf(id));
  }

  lemma SettledIndexed(s: KvState)
    requires Indexed(s)
    ensures Indexed(Settled(s))
  {
  }

  /** A session that is shown reads as it is stored. */
  lemma ClearReads(s: KvState, id: Id)
    requires Indexed(s) && Clear(s, id)
    ensures SessionAt(s, id) == Stored(s, id)
  {
    hide Indexed, SessionAt, Mine;
    SettledIndexed(s);
    SameSession(s, Settled(s), id);
  }

  lemma SaveSameUnder(s: KvState, session: ConversationSession, other: Id, key: Bytes)
    requires Indexed(s) && |session.turns| <= UINT32_MAX && other != IdOf(session) && Mine(other, key)
    ensures Find(AfterSave(s, session).data, key) == Find(s.data, key)
    ensures Find(AfterSave(s, session).seen, key) == Find(s.seen, key)
  {
    hide Indexed, AfterSave, PrefixOf, MetaOf, LegacyOf, TurnOf, SerializeSummary, SerializeLegacy, Swept,
         SessionEntries, PutAll, IsReserved;
    var id := IdOf(session);
    forall n | 0 <= n < |session.turns| ensures TurnOf(id, n) != key {
      KeysApart(id, other, n);
    }
    KeysApart(id, other, 0);
    KeysApart(other, id, 0);
    MineOrdinary(other, key);
    SaveFinds(s, session, key);
    SweptFinds(s, id, key);
    PutMisses(Swept(s, id).data, session, key);
    PutMisses(Swept(s, id).seen, session, key);
    NotBothPrefixes(id, other, key);
  }

  lemma NotBothPrefixes(a: Id, b: Id, key: Bytes)
    requires a != b
    ensures !(PrefixOf(a) <= key && PrefixOf(b) <= key)
  {
    hide PrefixOf;
    if PrefixOf(a) <= key && PrefixOf(b) <= key { PrefixesApart(a, b, key); }
  }

  /** Save changes no other session, stored or shown, whatever characters the
      identifiers contain. */
  lemma SaveElsewhere(s: KvState, session: ConversationSession, other: Id)
    requires Indexed(s) && |session.turns| <= UINT32_MAX && other != IdOf(session)
    ensures SessionAt(AfterSave(s, session), other) == SessionAt(s, other)
    ensures Stored(AfterSave(s, session), other) == Stored(s, other)
  {
    hide Indexed, AfterSave, Mine, SessionAt;
    var t := AfterSave(s, session);
    SaveIndexed(s, session);
    SettledIndexed(s);
    SettledIndexed(t);
    forall k | Mine(other, k)
      ensures Find(s.data, k) == Find(t.data, k) && Find(s.seen, k) == Find(t.seen, k)
    {
      SaveSameUnder(s, session, other, k);
    }
    SameSession(s, t, other);
    SameSession(Settled(s), Settled(t), other);
  }

  lemma DropKeys(s: KvState, id: Id)
    requires Indexed(s)
    ensures var keys := Removals(s, id);
            && NoneReserved(keys) && [] !in keys && keys != []
            && forall k :: k in keys <==> k in Listing(s, PrefixOf(id)) || k == MetaOf(id) || k == LegacyOf(id)
  {
    hide Indexed, PrefixOf, MetaOf, LegacyOf, Listing, IsReserved;
    var stale := Listing(s, PrefixOf(id));
    var keys := Removals(s, id);
    StaleKeys(s, PrefixOf(id));
    RecordKeysOrdinary(id);
    PrefixOrdinary(id);
    forall i | 0 <= i < |keys| ensures !IsReserved(keys[i]) && keys[i] != [] {
      if i < |stale| { assert keys[i] in stale; }
    }
    forall k ensures k in keys <==> k in stale || k == MetaOf(id) || k == LegacyOf(id) {
      assert keys[|keys| - 2] == MetaOf(id) && keys[|keys| - 1] == LegacyOf(id);
    }
  }

  /** Delete removes what is shown of the session, and takes the rest for absent. */
  lemma DropFinds(s: KvState, id: Id, key: Bytes)
    requires Indexed(s) && !IsReserved(key)
    ensures var t := AfterDrop(s, id);
            && Find(t.data, key) == (if Mine(id, key) && key in s.seen then None else Find(s.data, key))
            && (!Mine(id, key) ==> Find(t.seen, key) == Find(s.seen, key))
            && (Mine(id, key) && (key in s.data || !(PrefixOf(id) <= key)) ==> Find(t.seen, key) == None)
  {
    hide Indexed, AfterBatchDelete, PrefixOf, MetaOf, LegacyOf, Listing, IsReserved;
    MetaIsReserved();
    DropKeys(s, id);
    StaleKeys(s, PrefixOf(id));
    BatchDeleteFinds(s, Removals(s, id), key);
  }

  lemma DropIndexed(s: KvState, id: Id)
    requires Indexed(s)
    ensures Indexed(AfterDrop(s, id))
    ensures Agrees(s) && Clear(s, id) ==> Agrees(AfterDrop(s, id))
  {
    hide Indexed, AfterBatchDelete, PrefixOf, MetaOf, LegacyOf, Listing, IsReserved, TotalBytes;
    var keys := Removals(s, id);
    DropKeys(s, id);
    StaleKeys(s, PrefixOf(id));
    BatchDeleteIndexed(s, keys);
    if Clear(s, id) {
      forall k | k in keys ensures Unhidden(s, k) { assert Mine(id, k); }
    }
  }

  lemma NotMine(id: Id, other: Id, key: Bytes)
    requires id != other && Mine(other, key)
    ensures !Mine(id, key)
  {
    hide PrefixOf, MetaOf, LegacyOf;
    KeysApart(id, other, 0);
    KeysApart(other, id, 0);
    NotBothPrefixes(id, other, key);
  }

  /** Delete changes no other session. */
  lemma DropElsewhere(s: KvState, id: Id, other: Id)
    requires Indexed(s) && other != id
    ensures SessionAt(AfterDrop(s, id), other) == SessionAt(s, other)
    ensures Stored(AfterDrop(s, id), other) == Stored(s, other)
  {
    hide Indexed, AfterDrop, Mine, SessionAt;
    var t := AfterDrop(s, id);
    DropIndexed(s, id);
    SettledIndexed(s);
    SettledIndexed(t);
    forall k | Mine(other, k)
      ensures Find(s.data, k) == Find(t.data, k) && Find(s.seen, k) == Find(t.seen, k)
    {
      NotMine(id, other, k);
      MineOrdinary(other, k);
      DropFinds(s, id, k);
    }
    SameSession(s, t, other);
    SameSession(Settled(s), Settled(t), other);
  }

  /** After Delete the session is no longer read, at any step of the flusher. */
  lemma DropThenGet(s: KvState, id: Id)
    requires Indexed(s)
    ensures SessionAt(AfterDrop(s, id), id) == None
  {
    hide Indexed, AfterDrop, PrefixOf, MetaOf, LegacyOf, TurnsOf, ParsedSummary, ParsedLegacy, IsReserved;
    RecordKeysOrdinary(id);
    KeysApart(id, id, 0);
    DropFinds(s, id, MetaOf(id));
    DropFinds(s, id, LegacyOf(id));
  }

  /** What was not shown of the two records of a session does not parse: the
      summary if that is left, or else the legacy record. */
  predicate NoLeftRecord(s: KvState, id: Id, shown: set<Bytes>) {
    if MetaOf(id) in s.data && MetaOf(id) !in shown then ParsedSummary(s.data[MetaOf(id)]).None?
    else LegacyOf(id) in s.data && LegacyOf(id) !in shown ==> ParsedLegacy(s.data[LegacyOf(id)]).None?
  }

  lemma LeftRecordIff(s: KvState, u: KvState, id: Id, shown: set<Bytes>)
    requires Find(u.data, MetaOf(id)) == if MetaOf(id) in shown then None else Find(s.data, MetaOf(id))
    requires Find(u.data, LegacyOf(id)) == if LegacyOf(id) in shown then None else Find(s.data, LegacyOf(id))
    ensures Stored(u, id) == None <==> NoLeftRecord(s, id, shown)
  {
    hide MetaOf, LegacyOf, TurnsOf, ParsedSummary, ParsedLegacy;
  }

  /** Delete removes the session from the store if and only if no hidden record of
      it is left over. */
  lemma DropStoredIff(s: KvState, id: Id)
    requires Indexed(s)
    ensures Stored(AfterDrop(s, id), id) == None <==> NoLeftRecord(s, id, s.seen.Keys)
  {
    hide Indexed, AfterDrop, PrefixOf, MetaOf, LegacyOf, Stored, NoLeftRecord, IsReserved;
    RecordKeysOrdinary(id);
    DropFinds(s, id, MetaOf(id));
    DropFinds(s, id, LegacyOf(id));
    LeftRecordIff(s, AfterDrop(s, id), id, s.seen.Keys);
  }

  // ---- append and trim ----

  /** What AppendTurn saves: the session that is there, or a new one. */
  function Appended(existing: Option<ConversationSession>, id: Id, model: Bytes,
                    turn: ConversationTurn): ConversationSession {
    var session := if existing.Some? then existing.value
                   else ConversationSession(id.tenant, id.appId, id.sessionId, model, []);
    session.(model := if model == [] then session.model else model, turns := session.turns + [turn])
  }

  /** The last n turns. */
  function Trimmed(session: ConversationSession, n: nat): ConversationSession
    requires |session.turns| > n
  {
    session.(turns := session.turns[|session.turns| - n..])
  }

  /** ConversationStore::Save refuses an empty session id. */
  function AfterSaveOrNot(s: KvState, session: ConversationSession): KvState
    requires |session.turns| <= UINT32_MAX
  {
    if session.sessionId == [] then s else AfterSave(s, session)
  }

  function AfterAppend(s: KvState, id: Id, model: Bytes, turn: ConversationTurn): KvState
    requires |Appended(SessionAt(s, id), id, model, turn).turns| <= UINT32_MAX
  {
    AfterSaveOrNot(s, Appended(SessionAt(s, id), id, model, turn))
  }

  function AfterTrim(s: KvState, id: Id, n: nat): KvState
    requires var e := SessionAt(s, id); e.Some? ==> |e.value.turns| <= UINT32_MAX
  {
    var e := SessionAt(s, id);
    if e.None? || |e.value.turns| <= n then s else AfterSaveOrNot(s, Trimmed(e.value, n))
  }

  lemma {:induction false} SpokenConcat(a: seq<ConversationTurn>, b: seq<ConversationTurn>)
    ensures SpokenTurns(a + b) == SpokenTurns(a) + SpokenTurns(b)
  {
    if a == [] {
      assert a + b == b;
    } else {
      assert (a + b)[1..] == a[1..] + b;
      SpokenConcat(a[1..], b);
    }
  }

  /** What is found has a session id: records without one do not parse. */
  lemma FoundHasId(s: KvState, id: Id)
    ensures SessionAt(s, id).Some? ==> SessionAt(s, id).value.sessionId != []
  {
    hide MetaOf, LegacyOf, TurnsOf, RowsOf, SummaryFrom, LegacyFrom;
  }

  /** AppendTurn saves what it found with one turn more at the end; a turn
      without a role is not kept. What it found is normally filed under the
      identifier it was asked for, and then so is what it saves. */
  lemma AppendThenGet(s: KvState, id: Id, model: Bytes, turn: ConversationTurn)
    requires Indexed(s) && |Appended(SessionAt(s, id), id, model, turn).turns| <= UINT32_MAX
    requires SessionAt(s, id).Some? || id.sessionId != []
    ensures var before, to := SessionAt(s, id), IdOf(Appended(SessionAt(s, id), id, model, turn));
            var turns := if before.Some? then SpokenTurns(before.value.turns) else [];
            var after := SessionAt(AfterAppend(s, id, model, turn), to);
            && (before.None? || IdOf(before.value) == id ==> to == id)
            && after.Some? && IdOf(after.value) == to
            && after.value.turns == turns + (if turn.role == [] then [] else [turn])
            && after.value.model == if before.Some? && model == [] then before.value.model else model
  {
    hide Indexed, AfterSave, SessionAt;
    var session := Appended(SessionAt(s, id), id, model, turn);
    FoundHasId(s, id);
    SaveThenGet(s, session);
    var earlier := if SessionAt(s, id).Some? then SessionAt(s, id).value.turns else [];
    SpokenConcat(earlier, [turn]);
    assert [turn][1..] == [];
    assert SpokenTurns([turn]) == if turn.role == [] then [] else [turn];
  }

  /** And what it saved is what is stored if and only if no hidden turn is left
      over. */
  lemma AppendStoredIff(s: KvState, id: Id, model: Bytes, turn: ConversationTurn)
    requires Indexed(s) && |Appended(SessionAt(s, id), id, model, turn).turns| <= UINT32_MAX
    requires SessionAt(s, id).Some? || id.sessionId != []
    ensures var saved := Appended(SessionAt(s, id), id, model, turn);
            (Stored(AfterAppend(s, id, model, turn), IdOf(saved)) == Some(Readable(saved))
             <==> NoLeftTurns(s, IdOf(saved), |saved.turns|, s.seen.Keys))
  {
    hide Indexed, AfterSave, SessionAt, NoLeftTurns, Readable;
    FoundHasId(s, id);
    SaveStoredIff(s, Appended(SessionAt(s, id), id, model, turn));
  }

  /** The summary then counts one turn more, and is dated by the new turn. */
  lemma AppendRecords(s: KvState, id: Id, model: Bytes, turn: ConversationTurn)
    requires Indexed(s) && |Appended(SessionAt(s, id), id, model, turn).turns| <= UINT32_MAX
    requires SessionAt(s, id).Some? || id.sessionId != []
    ensures var before, to := SessionAt(s, id), IdOf(Appended(SessionAt(s, id), id, model, turn));
            var m := SummaryAt(AfterAppend(s, id, model, turn).seen, to);
            && m.Some? && m.value.updatedAtMs == turn.createdAtMs
            && m.value.turnCount == (if before.Some? then |before.value.turns| else 0) + 1
            && m.value.model == if before.Some? && model == [] then before.value.model else model
  {
    hide Indexed, AfterSave, SessionAt, SummaryAt;
    var session := Appended(SessionAt(s, id), id, model, turn);
    FoundHasId(s, id);
    SaveRecords(s, session);
    assert session.turns[|session.turns| - 1] == turn;
  }

  lemma LastSpoken(turns: seq<ConversationTurn>, n: nat)
    requires n <= |turns|
    ensures AllSpoken(turns) ==> SpokenTurns(turns[n..]) == turns[n..]
  {
    hide SpokenTurns;
    SpokenTurnsIff(turns[n..]);
  }

  /** TrimToLastTurns(n) leaves exactly the last min(n, length) turns, without
      those that have no role if it has to save. */
  lemma TrimThenGet(s: KvState, id: Id, n: nat)
    requires Indexed(s) && SessionAt(s, id).Some? && |SessionAt(s, id).value.turns| <= UINT32_MAX
    ensures var session := SessionAt(s, id).value;
            if |session.turns| <= n then AfterTrim(s, id, n) == s
            else
              var kept := session.turns[|session.turns| - n..];
              var after := SessionAt(AfterTrim(s, id, n), IdOf(session));
              && after == Some(session.(turns := SpokenTurns(kept)))
              && (AllSpoken(session.turns) ==> after == Some(session.(turns := kept)))
  {
    hide Indexed, AfterSave, SessionAt, SpokenTurns, AllSpoken;
    var session := SessionAt(s, id).value;
    FoundHasId(s, id);
    if |session.turns| > n {
      SaveThenGet(s, Trimmed(session, n));
      LastSpoken(session.turns, |session.turns| - n);
    }
  }

  /** The summary then counts the kept turns, and is dated by the last of them. */
  lemma TrimRecords(s: KvState, id: Id, n: nat)
    requires Indexed(s) && SessionAt(s, id).Some? && n < |SessionAt(s, id).value.turns| <= UINT32_MAX
    ensures var session := SessionAt(s, id).value;
            var m := SummaryAt(AfterTrim(s, id, n).seen, IdOf(session));
            && m.Some? && m.value.turnCount == n && m.value.model == session.model
            && m.value.updatedAtMs == if n == 0 then 0 else session.turns[|session.turns| - 1].createdAtMs
  {
    hide Indexed, AfterSave, SessionAt, SummaryAt;
    FoundHasId(s, id);
    SaveRecords(s, Trimmed(SessionAt(s, id).value, n));
  }

  // ---- saving over what is hidden ----

  /** The store holds the records of the session and no other turn of it. */
  ghost predicate Holds(s: KvState, was: ConversationSession) {
    && |was.turns| <= UINT32_MAX && was.sessionId != []
    && OnRecord(Settled(s), was)
    && OnlySpeak(Settled(s), IdOf(was), TurnKeys(IdOf(was), |was.turns|))
  }

  lemma HoldsIsStored(s: KvState, was: ConversationSession)
    requires Indexed(s) && Holds(s, was)
    ensures Stored(s, IdOf(was)) == Some(Readable(was))
  {
    hide Indexed, SessionAt, OnRecord, OnlySpeak, Readable;
    SettledIndexed(s);
    GetIff(Settled(s), was);
  }

  lemma SaveHolds(s: KvState, session: ConversationSession)
    requires Indexed(s) && session.sessionId != [] && |session.turns| <= UINT32_MAX
    ensures Holds(AfterSave(s, session), session) <==> NoLeftTurns(s, IdOf(session), |session.turns|, s.seen.Keys)
  {
    hide Indexed, AfterSave, SessionAt, OnRecord, OnlySpeak, Readable, NoLeftTurns;
    var u := AfterSave(s, session);
    SaveStoredIff(s, session);
    SaveIndexed(s, session);
    SettledIndexed(u);
    SaveWrites(s, session);
    GetIff(Settled(u), session);
  }

  /** The numbers from n to the count whose turns are not shown. */
  function Unseen(id: Id, n: nat, count: nat, shown: set<Bytes>): (r: seq<nat>)
    decreases count - n
  {
    if n >= count then []
    else (if TurnOf(id, n) in shown then [] else [n]) + Unseen(id, n + 1, count, shown)
  }

  lemma {:induction false} UnseenNumbers(id: Id, n: nat, count: nat, shown: set<Bytes>)
    ensures var r := Unseen(id, n, count, shown);
            && (forall i :: 0 <= i < |r| ==> n <= r[i] < count && TurnOf(id, r[i]) !in shown)
            && (forall i, j :: 0 <= i < j < |r| ==> r[i] < r[j])
            && (forall m :: n <= m < count && TurnOf(id, m) !in shown ==> m in r)
            && |r| <= if n <= count then count - n else 0
    decreases count - n
  {
    hide TurnOf;
    if n < count { UnseenNumbers(id, n + 1, count, shown); }
  }

  /** The turns with the given numbers. */
  function Chosen(turns: seq<ConversationTurn>, numbers: seq<nat>): seq<ConversationTurn>
    requires forall i :: 0 <= i < |numbers| ==> numbers[i] < |turns|
  {
    seq(|numbers|, i requires 0 <= i < |numbers| => turns[numbers[i]])
  }

  /** The turns from number n on that are not shown. */
  function HiddenTurns(id: Id, turns: seq<ConversationTurn>, n: nat, shown: set<Bytes>): seq<ConversationTurn> {
    UnseenNumbers(id, n, |turns|, shown);
    Chosen(turns, Unseen(id, n, |turns|, shown))
  }

  /** The keys of the first turns, and those of the given numbers behind them. */
  function KeysWith(id: Id, count: nat, numbers: seq<nat>): seq<Bytes> {
    TurnKeys(id, count) + seq(|numbers|, i requires 0 <= i < |numbers| => TurnOf(id, numbers[i]))
  }

  lemma KeysWithAscend(id: Id, count: nat, numbers: seq<nat>)
    requires count <= UINT32_MAX
    requires forall i :: 0 <= i < |numbers| ==> count <= numbers[i] <= UINT32_MAX
    requires forall i, j :: 0 <= i < j < |numbers| ==> numbers[i] < numbers[j]
    ensures Ascending(KeysWith(id, count, numbers))
  {
    hide Lt, TurnKey;
    var keys := KeysWith(id, count, numbers);
    forall i, j | 0 <= i < j < |keys| ensures Lt(keys[i], keys[j]) {
      var m := if i < count then i else numbers[i - count];
      var n := if j < count then j else numbers[j - count];
      assert keys[i] == TurnOf(id, m) && keys[j] == TurnOf(id, n);
      TurnOrder(id.tenant, id.appId, id.sessionId, m, n);
    }
  }

  /** A state u in which a session was saved over another one, of which only
      some keys were shown. */
  ghost predicate SavedOver(s: KvState, u: KvState, was: ConversationSession, session: ConversationSession,
                            shown: set<Bytes>) {
    && Indexed(u) && Holds(s, was) && IdOf(session) == IdOf(was) && |session.turns| <= UINT32_MAX
    && OnRecord(Settled(u), session) && Replaced(s, u, IdOf(was), |session.turns|, shown)
  }

  /** What is stored then are the new turns and, behind them, every hidden old
      turn that no new one has overwritten. */
  lemma StoredOver(s: KvState, u: KvState, was: ConversationSession, session: ConversationSession, shown: set<Bytes>)
    requires SavedOver(s, u, was, session, shown)
    ensures var left := HiddenTurns(IdOf(was), was.turns, |session.turns|, shown);
            Stored(u, IdOf(was)) == Some(session.(turns := SpokenTurns(session.turns) + SpokenTurns(left)))
  {
    hide Indexed, SessionAt, TurnOf, PrefixOf, MetaOf, OnRecord, OnlySpeak, HiddenTurns, Recorded, Ascending,
         KeysWith, Unseen, TurnsOf, Replaced;
    var id, count := IdOf(was), |session.turns|;
    var numbers := Unseen(id, count, |was.turns|, shown);
    var left := HiddenTurns(id, was.turns, count, shown);
    SettledIndexed(u);
    GetIff(Settled(u), session);
    UnseenNumbers(id, count, |was.turns|, shown);
    KeysWithAscend(id, count, numbers);
    OverRecorded(s, u, was, session, shown);
    OverSpeaks(s, u, was, session, shown);
    ScanGivesIff(Settled(u), id, KeysWith(id, count, numbers), session.turns + left);
    SpokenConcat(session.turns, left);
  }

  lemma OverRecorded(s: KvState, u: KvState, was: ConversationSession, session: ConversationSession, shown: set<Bytes>)
    requires SavedOver(s, u, was, session, shown)
    ensures var id, count := IdOf(was), |session.turns|;
            Recorded(Settled(u), id, KeysWith(id, count, Unseen(id, count, |was.turns|, shown)),
                     session.turns + HiddenTurns(id, was.turns, count, shown))
  {
    hide Indexed, SessionAt, TurnOf, PrefixOf, MetaOf, SerializeTurn, SerializeSummary, Unseen, IsReserved, OnlySpeak;
    var id, count := IdOf(was), |session.turns|;
    var numbers := Unseen(id, count, |was.turns|, shown);
    var keys, turns := KeysWith(id, count, numbers), session.turns + HiddenTurns(id, was.turns, count, shown);
    UnseenNumbers(id, count, |was.turns|, shown);
    var olds := TurnKeys(id, |was.turns|);
    forall i | 0 <= i < |keys|
      ensures PrefixOf(id) <= keys[i] && !IsReserved(keys[i])
      ensures Find(u.data, keys[i]) == Some(SerializeTurn(turns[i]))
    {
      if i < count {
        assert keys[i] == TurnKeys(id, count)[i];
      } else {
        var n := numbers[i - count];
        assert keys[i] == TurnOf(id, n) == olds[n] && turns[i] == was.turns[n];
        LateTurn(id, count, n);
      }
    }
  }

  lemma LateTurn(id: Id, count: nat, n: nat)
    requires count <= n <= UINT32_MAX
    ensures TurnOf(id, n) !in TurnKeys(id, count)
  {
    hide TurnOf;
    forall m | 0 <= m < count ensures TurnOf(id, m) != TurnOf(id, n) { TurnKeysDiffer(id, m, n); }
  }

  lemma EarlyTurn(id: Id, count: nat, n: nat)
    ensures n < count ==> TurnOf(id, n) in TurnKeys(id, count)
  {
    hide TurnOf;
    if n < count { assert TurnKeys(id, count)[n] == TurnOf(id, n); }
  }

  lemma OverSpeaks(s: KvState, u: KvState, was: ConversationSession, session: ConversationSession, shown: set<Bytes>)
    requires SavedOver(s, u, was, session, shown)
    ensures var id, count := IdOf(was), |session.turns|;
            OnlySpeak(Settled(u), id, KeysWith(id, count, Unseen(id, count, |was.turns|, shown)))
  {
    hide Indexed, SessionAt, TurnOf, PrefixOf, MetaOf, OnRecord, Unseen, ParsedTurn;
    var id, count := IdOf(was), |session.turns|;
    var numbers := Unseen(id, count, |was.turns|, shown);
    var keys, news, olds := KeysWith(id, count, numbers), TurnKeys(id, count), TurnKeys(id, |was.turns|);
    UnseenNumbers(id, count, |was.turns|, shown);
    forall k | PrefixOf(id) <= k && Speaks(u.data, k) ensures k in keys {
      if k in news {
        var i :| 0 <= i < count && news[i] == k;
        assert keys[i] == k;
      } else {
        assert Find(u.data, k) == if k in shown then None else Find(s.data, k);
        assert Speaks(Settled(s).seen, k) && k in olds;
        var n :| 0 <= n < |was.turns| && olds[n] == k;
        EarlyTurn(id, count, n);
        var j :| 0 <= j < |numbers| && numbers[j] == n;
        assert keys[count + j] == k;
      }
    }
  }

  /** Save over a session of which any part is hidden. */
  lemma SaveOverHidden(s: KvState, was: ConversationSession, session: ConversationSession)
    requires Indexed(s) && Holds(s, was) && IdOf(session) == IdOf(was) && |session.turns| <= UINT32_MAX
    ensures var left := HiddenTurns(IdOf(was), was.turns, |session.turns|, s.seen.Keys);
            Stored(AfterSave(s, session), IdOf(was)) ==
              Some(session.(turns := SpokenTurns(session.turns) + SpokenTurns(left)))
  {
    hide Indexed, AfterSave, SessionAt, TurnOf, PrefixOf, OnRecord, OnlySpeak, HiddenTurns;
    var u, id := AfterSave(s, session), IdOf(was);
    SaveIndexed(s, session);
    SaveWrites(s, session);
    SaveReplaces(s, session);
    StoredOver(s, u, was, session, s.seen.Keys);
  }

  /** AppendTurn on a session whose two records are hidden, with any part of its
      turns: it starts over, and what is stored afterwards is the new turn and the
      hidden old turns from number 1 on, never the old turns and the new one. */
  lemma AppendHidden(s: KvState, was: ConversationSession, model: Bytes, turn: ConversationTurn)
    requires Indexed(s) && Holds(s, was) && 1 <= |was.turns| && AllSpoken(was.turns) && turn.role != []
    requires MetaOf(IdOf(was)) !in s.seen && LegacyOf(IdOf(was)) !in s.seen
    ensures var id, left := IdOf(was), HiddenTurns(IdOf(was), was.turns, 1, s.seen.Keys);
            && Stored(s, id) == Some(was) && SessionAt(s, id) == None
            && var after := Stored(AfterAppend(s, id, model, turn), id);
               && after.Some? && after.value.turns == [turn] + left
               && after.value.turns != was.turns + [turn]
  {
    hide Indexed, AfterSave, HiddenTurns, OnRecord, OnlySpeak, Stored, SessionAt, SpokenTurns;
    var id, left := IdOf(was), HiddenTurns(IdOf(was), was.turns, 1, s.seen.Keys);
    var started := ConversationSession(id.tenant, id.appId, id.sessionId, model, [turn]);
    HoldsIsStored(s, was);
    SpokenTurnsIff(was.turns);
    BlindGet(s, id);
    assert Appended(None, id, model, turn) == started;
    SaveOverHidden(s, was, started);
    HiddenFew(id, was.turns, 1, s.seen.Keys);
    SpokenTurnsIff(left);
    SpokenTurnsIff([turn]);
    assert |[turn] + left| < |was.turns + [turn]|;
  }

  lemma BlindGet(s: KvState, id: Id)
    requires MetaOf(id) !in s.seen && LegacyOf(id) !in s.seen
    ensures SessionAt(s, id) == None
  {
  }

  lemma HiddenFew(id: Id, turns: seq<ConversationTurn>, n: nat, shown: set<Bytes>)
    ensures |HiddenTurns(id, turns, n, shown)| <= if n <= |turns| then |turns| - n else 0
    ensures AllSpoken(turns) ==> AllSpoken(HiddenTurns(id, turns, n, shown))
  {
    hide TurnOf, Unseen;
    UnseenNumbers(id, n, |turns|, shown);
  }
}
