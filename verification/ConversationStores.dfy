/** The conversation store object over the key-value store. */
module ConversationStores {
  import opened ByteOrder
  import opened Runs
  import opened Codec
  import opened Keyspace
  import opened KeyIndex
  import opened KvStore
  import opened Records
  import opened Conversations

  /** There is a session, and it need not be saved or can be. */
  predicate CanTrim(session: Option<ConversationSession>, keep: nat) {
    session.Some? && (|session.value.turns| <= keep || session.value.sessionId != [])
  }

  class ConversationStore {
    const store: DBKVStore

    constructor (store: DBKVStore)
      ensures this.store == store
    {
      this.store := store;
    }

    method Save(session: ConversationSession) returns (r: KVResult)
      requires store.Valid() && Indexed(store.State()) && |session.turns| <= UINT32_MAX
      modifies store`data, store`seen, store`knownKeys, store`trackedBytes, store.db
      ensures store.Valid() && store.db.manifest == old(store.db.manifest) && Indexed(store.State())
      ensures r.OK? <==> !store.closed && session.sessionId != []
      ensures store.State() == if r.OK? then AfterSave(old(store.State()), session) else old(store.State())
      ensures r.OK? ==> SessionAt(store.State(), IdOf(session)) == Some(Readable(session))
      ensures r.OK? ==> Sums(SummaryAt(store.seen, IdOf(session)), IdOf(session), session.model, session.turns)
      ensures r.OK? ==> (Stored(store.State(), IdOf(session)) == Some(Readable(session)) <==>
                         old(NoLeftTurns(store.State(), IdOf(session), |session.turns|, store.seen.Keys)))
    {
      hide DBKVStore.Valid, Indexed, AfterBatch, AfterBatchDelete, Listing, SessionEntries, IsReserved, SessionAt,
           Live, TurnPrefix, NoLeftTurns, Readable, Stored, SummaryAt, Sums;
      if session.sessionId == [] {
        return Fail("conversation requires session_id");
      }
      ghost var s := store.State();
      var prefix := TurnPrefix(session.tenant, session.appId, session.sessionId);
      var stale := store.ListKeysByPrefix(prefix);
      StaleNonEmpty(s, IdOf(session));
      if stale != [] {
        r := store.BatchDelete(stale);
        if r.Fail? {
          return;
        }
      } else {
        NothingDeleted(s);
      }
      var entries := BuildEntries(session);
      SessionEntriesOrdinary(session);
      SessionKeysNonEmpty(session);
      r := store.Batch(entries);
      SaveIndexed(s, session);
      SaveThenGet(s, session);
      SaveStoredIff(s, session);
      SaveRecords(s, session);
    }

    method ListTurns(tenant: Bytes, appId: Bytes, sessionId: Bytes) returns (turns: seq<ConversationTurn>)
      requires store.Valid()
      ensures turns == if store.closed then [] else TurnsOf(store.State(), Id(tenant, appId, sessionId))
    {
      hide DBKVStore.Valid, Listing, EntriesOf, ParsedTurn, TurnPrefix;
      var items := store.ListEntriesByPrefix(TurnPrefix(tenant, appId, sessionId));
      turns := [];
      for i := 0 to |items|
        invariant turns + TurnsIn(items[i..]) == TurnsIn(items)
      {
        assert items[i..][1..] == items[i + 1..];
        var parsed := ParseConversationTurn(items[i].value);
        if parsed.Some? {
          turns := turns + [parsed.value];
        }
      }
    }

    method Get(tenant: Bytes, appId: Bytes, sessionId: Bytes) returns (r: Option<ConversationSession>)
      requires store.Valid()
      ensures r == if store.closed then None else SessionAt(store.State(), Id(tenant, appId, sessionId))
    {
      hide DBKVStore.Valid, TurnsOf, ParsedSummary, ParsedLegacy;
      var payload := store.Get(MetaKey(tenant, appId, sessionId));
      if payload.Some? {
        var summary := ParseConversationSummary(payload.value);
        if summary.None? {
          return None;
        }
        var m := summary.value;
        var turns := ListTurns(tenant, appId, sessionId);
        return Some(ConversationSession(m.tenant, m.appId, m.sessionId, m.model, turns));
      }
      var legacy := store.Get(SessionKey(tenant, appId, sessionId));
      if legacy.None? {
        return None;
      }
      r := ParseLegacyConversation(legacy.value);
    }

    /** What AppendTurn is about to save. */
    ghost function Extended(id: Id, model: Bytes, turn: ConversationTurn): ConversationSession
      reads store
    {
      Appended(SessionAt(store.State(), id), id, model, turn)
    }

    method AppendTurn(tenant: Bytes, appId: Bytes, sessionId: Bytes, model: Bytes, turn: ConversationTurn)
      returns (r: KVResult)
      requires store.Valid() && Indexed(store.State())
      requires |Extended(Id(tenant, appId, sessionId), model, turn).turns| <= UINT32_MAX
      modifies store`data, store`seen, store`knownKeys, store`trackedBytes, store.db
      ensures store.Valid() && store.db.manifest == old(store.db.manifest) && Indexed(store.State())
      ensures store.State() == if store.closed then old(store.State())
                               else AfterAppend(old(store.State()), Id(tenant, appId, sessionId), model, turn)
      ensures r.OK? <==> (!store.closed && old(Extended(Id(tenant, appId, sessionId), model, turn)).sessionId != [])
    {
      hide DBKVStore.Valid, Indexed, SessionAt, AfterSave;
      var session := ConversationSession(tenant, appId, sessionId, model, []);
      var existing := Get(tenant, appId, sessionId);
      if existing.Some? {
        session := existing.value;
      }
      if model != [] {
        session := session.(model := model);
      }
      session := session.(turns := session.turns + [turn]);
      r := Save(session);
    }

    method TrimToLastTurns(tenant: Bytes, appId: Bytes, sessionId: Bytes, keep: nat) returns (r: KVResult)
      requires store.Valid() && Indexed(store.State())
      requires var e := SessionAt(store.State(), Id(tenant, appId, sessionId));
               e.Some? ==> |e.value.turns| <= UINT32_MAX
      modifies store`data, store`seen, store`knownKeys, store`trackedBytes, store.db
      ensures store.Valid() && store.db.manifest == old(store.db.manifest) && Indexed(store.State())
      ensures store.State() == if store.closed then old(store.State())
                               else AfterTrim(old(store.State()), Id(tenant, appId, sessionId), keep)
      ensures r.OK? <==> (!store.closed && old(CanTrim(SessionAt(store.State(), Id(tenant, appId, sessionId)), keep)))
    {
      hide DBKVStore.Valid, Indexed, SessionAt, AfterSave;
      var session := Get(tenant, appId, sessionId);
      if session.None? {
        return Fail("conversation not found");
      }
      if |session.value.turns| <= keep {
        return OK;
      }
      var turns := session.value.turns;
      r := Save(session.value.(turns := turns[|turns| - keep..]));
    }

    method Delete(tenant: Bytes, appId: Bytes, sessionId: Bytes) returns (r: KVResult)
      requires store.Valid() && Indexed(store.State())
      modifies store`data, store`seen, store`knownKeys, store`trackedBytes, store.db
      ensures store.Valid() && store.db.manifest == old(store.db.manifest) && Indexed(store.State())
      ensures r.OK? <==> !store.closed
      ensures store.State() == if store.closed then old(store.State())
                               else AfterDrop(old(store.State()), Id(tenant, appId, sessionId))
      ensures r.OK? ==> SessionAt(store.State(), Id(tenant, appId, sessionId)) == None
      ensures r.OK? ==> (Stored(store.State(), Id(tenant, appId, sessionId)) == None <==>
                         old(NoLeftRecord(store.State(), Id(tenant, appId, sessionId), store.seen.Keys)))
    {
      hide DBKVStore.Valid, Indexed, AfterBatchDelete, Listing, IsReserved, Live, MetaKey, SessionKey, TurnPrefix,
           SessionAt, Stored, NoLeftRecord;
      var id := Id(tenant, appId, sessionId);
      ghost var s := store.State();
      var prefix := TurnPrefix(tenant, appId, sessionId);
      var keys := store.ListKeysByPrefix(prefix);
      DropKeys(s, id);
      keys := keys + [MetaKey(tenant, appId, sessionId)];
      keys := keys + [SessionKey(tenant, appId, sessionId)];
      assert keys == Removals(s, id);
      DropIndexed(s, id);
      r := store.BatchDelete(keys);
      DropThenGet(s, id);
      DropStoredIff(s, id);
    }
  }

  /** The entries Save hands to Batch. */
  method BuildEntries(session: ConversationSession) returns (entries: seq<Entry>)
    requires |session.turns| <= UINT32_MAX
    ensures entries == SessionEntries(session)
  {
    hide SerializeTurn, SerializeLegacy, SerializeSummary, TurnOf, MetaOf, LegacyOf;
    var id := IdOf(session);
    entries := [Entry(LegacyOf(id), SerializeLegacy(session))];
    entries := entries + [Entry(MetaOf(id), SerializeSummary(SummaryOf(session)))];
    for i := 0 to |session.turns|
      invariant entries + TurnEntries(id, session.turns, i) == SessionEntries(session)
    {
      entries := entries + [Entry(TurnOf(id, i), SerializeTurn(session.turns[i]))];
    }
  }

  lemma StaleNonEmpty(s: KvState, id: Id)
    requires Indexed(s)
    ensures NoneReserved(Listing(s, PrefixOf(id))) && [] !in Listing(s, PrefixOf(id))
  {
    hide Indexed, Listing, IsReserved, PrefixOf;
    StaleKeys(s, PrefixOf(id));
    PrefixOrdinary(id);
  }

  lemma NothingDeleted(s: KvState)
    ensures AfterBatchDelete(s, []) == s
  {
  }

  lemma SessionKeysNonEmpty(session: ConversationSession)
    requires |session.turns| <= UINT32_MAX
    ensures SessionEntries(session) != []
    ensures forall i :: 0 <= i < |SessionEntries(session)| ==> SessionEntries(session)[i].key != []
  {
    hide SerializeTurn, SerializeLegacy, SerializeSummary, MetaKey, SessionKey, TurnKey, Text;
    var id := IdOf(session);
    RecordKeysOrdinary(id);
    TurnEntriesAt(id, session.turns, 0);
    forall i | 0 <= i < |session.turns| ensures TurnOf(id, i) != [] {
      TextIs(id, i);
      TextIsOrdinary(Turn(id.tenant, id.appId, id.sessionId, i));
    }
  }
}
