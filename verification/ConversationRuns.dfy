/** Runs of a conversation store whose flusher may move at any time, also between
    the single reads, deletions and writes of one call. */
module ConversationRuns {
  import opened ByteOrder
  import opened Runs
  import opened Codec
  import opened Keyspace
  import opened KeyIndex
  import opened Records
  import opened Conversations

  // ---- reading while the flusher moves ----

  function EntriesVia(keys: seq<Bytes>, views: seq<map<Bytes, Bytes>>): seq<Entry>
    requires |views| == |keys|
    decreases |keys|
  {
    if keys == [] then []
    else (if keys[0] in views[0] then [Entry(keys[0], views[0][keys[0]])] else []) + EntriesVia(keys[1..], views[1..])
  }

  /** ConversationStore::Get, where each record is looked for in a view of its own. */
  function SessionVia(s: KvState, id: Id, meta: map<Bytes, Bytes>, legacy: map<Bytes, Bytes>,
                      turns: seq<map<Bytes, Bytes>>): Option<ConversationSession>
    requires |turns| == |Listing(s, PrefixOf(id))|
  {
    match Find(meta, MetaOf(id))
    case Some(payload) =>
      (match ParsedSummary(payload)
       case None => None
       case Some(m) =>
         Some(ConversationSession(m.tenant, m.appId, m.sessionId, m.model,
                                  TurnsIn(EntriesVia(Listing(s, PrefixOf(id)), turns)))))
    case None =>
      (match Find(legacy, LegacyOf(id))
       case None => None
       case Some(payload) => ParsedLegacy(payload))
  }

  /** One view that shows each key as its own view does. */
  lemma {:induction false} OneView(keys: seq<Bytes>, views: seq<map<Bytes, Bytes>>) returns (view: map<Bytes, Bytes>)
    requires |views| == |keys| && Distinct(keys)
    ensures EntriesOf(keys, view) == EntriesVia(keys, views)
    ensures forall k :: k in view ==> k in keys
    decreases |keys|
  {
    if keys == [] {
      view := map[];
    } else {
      var rest := OneView(keys[1..], views[1..]);
      view := if keys[0] in views[0] then rest[keys[0] := views[0][keys[0]]] else rest;
      assert keys[0] !in keys[1..];
      SameEntries(keys[1..], rest, view);
    }
  }

  /** Every record is read once, so a Get during which the flusher moves is a Get
      at some one view. */
  lemma GetViaIsGet(s: KvState, id: Id, meta: map<Bytes, Bytes>, legacy: map<Bytes, Bytes>,
                    turns: seq<map<Bytes, Bytes>>) returns (view: map<Bytes, Bytes>)
    requires Indexed(s) && |turns| == |Listing(s, PrefixOf(id))|
    ensures SessionVia(s, id, meta, legacy, turns) == SessionAt(s.(seen := view), id)
  {
    hide Indexed, Listing, PrefixOf, MetaOf, LegacyOf, EntriesOf, EntriesVia, TurnsIn, ParsedSummary, ParsedLegacy,
         IsReserved;
    var keys := Listing(s, PrefixOf(id));
    ListingIsExact(s, PrefixOf(id));
    AscendingDistinct(keys);
    var scanned := OneView(keys, turns);
    KeysApart(id, id, 0);
    var found := Find(meta, MetaOf(id));
    var earlier := Find(legacy, LegacyOf(id));
    view := scanned;
    view := if found.Some? then view[MetaOf(id) := found.value] else view;
    view := if earlier.Some? then view[LegacyOf(id) := earlier.value] else view;
    SameEntries(keys, scanned, view);
    ListingSees(s, view, PrefixOf(id));
  }

  lemma ListingSees(s: KvState, view: map<Bytes, Bytes>, prefix: Bytes)
    ensures Listing(s.(seen := view), prefix) == Listing(s, prefix)
  {
  }

  // ---- saving and deleting while the flusher moves ----

  /** What the database shows at each deletion and at each write of a call. */
  datatype Moves = Moves(dels: seq<map<Bytes, Bytes>>, puts: seq<map<Bytes, Bytes>>)

  predicate Spans(s: KvState, session: ConversationSession, moves: Moves) {
    && |session.turns| <= UINT32_MAX
    && |moves.dels| == |Listing(s, PrefixOf(IdOf(session)))| && |moves.puts| == |SessionEntries(session)|
  }

  function SaveVia(s: KvState, session: ConversationSession, moves: Moves): KvState
    requires Spans(s, session, moves)
  {
    var swept := AfterDeletesVia(s, Listing(s, PrefixOf(IdOf(session))), moves.dels);
    AfterPutsVia(swept, SessionEntries(session), moves.puts)
  }

  function DropVia(s: KvState, id: Id, dels: seq<map<Bytes, Bytes>>): KvState
    requires |dels| == |Removals(s, id)|
  {
    AfterDeletesVia(s, Removals(s, id), dels)
  }

  /** With a flusher that stands still these are Save and Delete. */
  lemma SaveViaStill(s: KvState, session: ConversationSession) returns (moves: Moves)
    requires |session.turns| <= UINT32_MAX
    ensures Spans(s, session, moves) && SaveVia(s, session, moves) == AfterSave(s, session)
  {
    hide Listing, SessionEntries, PrefixOf, AfterDeletesVia, AfterPutsVia, AfterBatch, AfterBatchDelete;
    var dels := DeletesViaStill(s, Listing(s, PrefixOf(IdOf(session))));
    var puts := PutsViaStill(Swept(s, IdOf(session)), SessionEntries(session));
    moves := Moves(dels, puts);
  }

  lemma DropViaStill(s: KvState, id: Id) returns (dels: seq<map<Bytes, Bytes>>)
    ensures |dels| == |Removals(s, id)| && DropVia(s, id, dels) == AfterDrop(s, id)
  {
    hide Removals, AfterDeletesVia, AfterBatchDelete;
    dels := DeletesViaStill(s, Removals(s, id));
  }

  /** A call is a run of single deletes and puts with steps of the flusher in
      between, so RunIsMap speaks of its byte counter. */
  lemma SaveViaIsRun(s: KvState, session: ConversationSession, moves: Moves)
    requires Indexed(s) && Spans(s, session, moves)
    ensures SaveVia(s, session, moves)
         == Run(s, DeleteOps(Listing(s, PrefixOf(IdOf(session))), moves.dels)
                   + PutOps(SessionEntries(session), moves.puts))
  {
    hide Indexed, Listing, SessionEntries, PrefixOf, AfterDeletesVia, AfterPutsVia, Run, DeleteOps, PutOps, Ordinary,
         IsReserved, NoneReserved;
    var stale := Listing(s, PrefixOf(IdOf(session)));
    StaleKeys(s, PrefixOf(IdOf(session)));
    SessionEntriesOrdinary(session);
    DeletesViaIsRun(s, stale, moves.dels);
    PutsViaIsRun(AfterDeletesVia(s, stale, moves.dels), SessionEntries(session), moves.puts);
    RunConcat(s, DeleteOps(stale, moves.dels), PutOps(SessionEntries(session), moves.puts));
  }

  lemma DropViaIsRun(s: KvState, id: Id, dels: seq<map<Bytes, Bytes>>)
    requires Indexed(s) && |dels| == |Removals(s, id)|
    ensures DropVia(s, id, dels) == Run(s, DeleteOps(Removals(s, id), dels))
  {
    hide Indexed, Removals, AfterDeletesVia, Run, DeleteOps, NoneReserved;
    DropKeys(s, id);
    DeletesViaIsRun(s, Removals(s, id), dels);
  }

  lemma LiveFinds(s: KvState, key: Bytes)
    requires !IsReserved(key)
    ensures Find(Live(s), key) == Find(s.data, key)
  {
  }

  /** The turns Save saw when it was their turn to be deleted. */
  function SweptAt(s: KvState, id: Id, dels: seq<map<Bytes, Bytes>>): set<Bytes>
    requires |dels| == |Listing(s, PrefixOf(id))|
  {
    ShownAt(Listing(s, PrefixOf(id)), dels)
  }

  lemma SaveViaIndexed(s: KvState, session: ConversationSession, moves: Moves)
    requires Indexed(s) && Spans(s, session, moves)
    ensures Indexed(SaveVia(s, session, moves))
  {
    hide Indexed, Listing, SessionEntries, PrefixOf, AfterDeletesVia, AfterPutsVia, Ordinary, IsReserved, NoneReserved,
         Live;
    StaleKeys(s, PrefixOf(IdOf(session)));
    SessionEntriesOrdinary(session);
    var stale := Listing(s, PrefixOf(IdOf(session)));
    DeletesViaIndexed(s, stale, moves.dels);
    PutsViaLive(AfterDeletesVia(s, stale, moves.dels), SessionEntries(session), moves.puts);
  }

  lemma SaveViaFinds(s: KvState, session: ConversationSession, moves: Moves, key: Bytes) returns (m: map<Bytes, Bytes>)
    requires Indexed(s) && Spans(s, session, moves) && !IsReserved(key)
    ensures Find(SaveVia(s, session, moves).data, key) == Find(PutAll(m, SessionEntries(session)), key)
    ensures Find(m, key) == if key in SweptAt(s, IdOf(session), moves.dels) then None else Find(s.data, key)
    ensures key in SweptAt(s, IdOf(session), moves.dels) ==> PrefixOf(IdOf(session)) <= key
  {
    hide Indexed, Listing, SessionEntries, PrefixOf, AfterDeletesVia, AfterPutsVia, Ordinary, IsReserved, NoneReserved,
         Live, PutAll, ShownAt;
    var prefix := PrefixOf(IdOf(session));
    var stale := Listing(s, prefix);
    StaleKeys(s, prefix);
    SessionEntriesOrdinary(session);
    DeletesViaIndexed(s, stale, moves.dels);
    var t := AfterDeletesVia(s, stale, moves.dels);
    PutsViaLive(t, SessionEntries(session), moves.puts);
    m := Live(t);
    LiveFinds(SaveVia(s, session, moves), key);
    LiveFinds(t, key);
    MetaIsReserved();
    DeletesViaFinds(s, stale, moves.dels, key);
    ShownAreKeys(stale, moves.dels, key);
  }

  lemma SaveViaWrites(s: KvState, session: ConversationSession, moves: Moves)
    requires Indexed(s) && Spans(s, session, moves)
    ensures OnRecord(Settled(SaveVia(s, session, moves)), session)
  {
    hide Indexed, SaveVia, PrefixOf, MetaOf, LegacyOf, TurnOf, SerializeSummary, SerializeLegacy, SerializeTurn,
         IsReserved, SessionEntries, PutAll, SweptAt;
    var u, id := SaveVia(s, session, moves), IdOf(session);
    forall n | 0 <= n < |session.turns|
      ensures TurnOf(id, n) != MetaOf(id) && PrefixOf(id) <= TurnOf(id, n) && !IsReserved(TurnOf(id, n))
      ensures Find(u.data, TurnOf(id, n)) == Some(SerializeTurn(session.turns[n]))
    {
      KeysApart(id, id, n);
      TurnKeyOrdinary(id, n);
      var m := SaveViaFinds(s, session, moves, TurnOf(id, n));
      PutHits(m, session, n);
    }
    RecordKeysOrdinary(id);
    var m := SaveViaFinds(s, session, moves, MetaOf(id));
    PutMisses(m, session, MetaOf(id));
  }

  /** However the flusher moves during Save, what is stored afterwards is the
      session if and only if no turn is left over that was hidden when it was to
      be deleted, and is not overwritten. */
  lemma SaveViaStoredIff(s: KvState, session: ConversationSession, moves: Moves)
    requires Indexed(s) && session.sessionId != [] && Spans(s, session, moves)
    ensures Stored(SaveVia(s, session, moves), IdOf(session)) == Some(Readable(session))
       <==> NoLeftTurns(s, IdOf(session), |session.turns|, SweptAt(s, IdOf(session), moves.dels))
  {
    hide Indexed, SaveVia, SessionAt, PrefixOf, TurnOf, OnRecord, NoLeftTurns, OnlySpeak, SweptAt, Replaced,
         SessionEntries;
    var u, id, count := SaveVia(s, session, moves), IdOf(session), |session.turns|;
    SaveViaIndexed(s, session, moves);
    SettledIndexed(u);
    SaveViaWrites(s, session, moves);
    GetIff(Settled(u), session);
    SaveViaReplaces(s, session, moves);
    LeftIff(s, u, id, count, SweptAt(s, id, moves.dels));
  }

  lemma SaveViaReplaces(s: KvState, session: ConversationSession, moves: Moves)
    requires Indexed(s) && Spans(s, session, moves)
    ensures Replaced(s, SaveVia(s, session, moves), IdOf(session), |session.turns|,
                     SweptAt(s, IdOf(session), moves.dels))
  {
    hide Indexed, SaveVia, PrefixOf, MetaOf, LegacyOf, TurnOf, SweptAt, IsReserved, SessionEntries, PutAll,
         SerializeSummary, SerializeLegacy;
    var u, id, count := SaveVia(s, session, moves), IdOf(session), |session.turns|;
    var shown := SweptAt(s, id, moves.dels);
    forall k | PrefixOf(id) <= k && k !in TurnKeys(id, count)
      ensures Find(u.data, k) == if k in shown then None else Find(s.data, k)
    {
      MineOrdinary(id, k);
      KeysApart(id, id, 0);
      NoTurnIff(id, count, k);
      var m := SaveViaFinds(s, session, moves, k);
      PutMisses(m, session, k);
    }
  }

  /** The exact outcome of a Save over a session of which any part is hidden, at
      whatever moments. */
  lemma SaveViaOverHidden(s: KvState, was: ConversationSession, session: ConversationSession, moves: Moves)
    requires Indexed(s) && Holds(s, was) && IdOf(session) == IdOf(was) && Spans(s, session, moves)
    ensures var left := HiddenTurns(IdOf(was), was.turns, |session.turns|, SweptAt(s, IdOf(was), moves.dels));
            Stored(SaveVia(s, session, moves), IdOf(was)) ==
              Some(session.(turns := SpokenTurns(session.turns) + SpokenTurns(left)))
  {
    hide Indexed, SaveVia, SessionAt, TurnOf, PrefixOf, OnRecord, OnlySpeak, HiddenTurns, SweptAt, Replaced;
    SaveViaIndexed(s, session, moves);
    SaveViaWrites(s, session, moves);
    SaveViaReplaces(s, session, moves);
    StoredOver(s, SaveVia(s, session, moves), was, session, SweptAt(s, IdOf(was), moves.dels));
  }

  /** And no other session changes. */
  lemma SaveViaElsewhere(s: KvState, session: ConversationSession, moves: Moves, other: Id)
    requires Indexed(s) && Spans(s, session, moves) && other != IdOf(session)
    ensures Stored(SaveVia(s, session, moves), other) == Stored(s, other)
  {
    hide Indexed, SaveVia, SessionAt, PrefixOf, MetaOf, LegacyOf, TurnOf, SweptAt, IsReserved, SessionEntries, PutAll,
         SerializeSummary, SerializeLegacy;
    var u, id := SaveVia(s, session, moves), IdOf(session);
    SaveViaIndexed(s, session, moves);
    SettledIndexed(s);
    SettledIndexed(u);
    forall k | Mine(other, k) ensures Find(s.data, k) == Find(u.data, k) {
      MineOrdinary(other, k);
      var m := SaveViaFinds(s, session, moves, k);
      OthersKey(id, other, |session.turns|, k);
      PutMisses(m, session, k);
    }
    SameSession(Settled(s), Settled(u), other);
  }

  /** A key of one session is none of another's. */
  lemma OthersKey(id: Id, other: Id, count: nat, key: Bytes)
    requires id != other && Mine(other, key) && count <= UINT32_MAX
    ensures !Mine(id, key) && NoTurn(id, count, key)
  {
    hide PrefixOf, MetaOf, LegacyOf, TurnOf;
    NotMine(id, other, key);
    forall n | 0 <= n < count ensures TurnOf(id, n) != key { KeysApart(id, id, n); }
  }

  lemma DropViaFinds(s: KvState, id: Id, dels: seq<map<Bytes, Bytes>>, key: Bytes)
    requires Indexed(s) && |dels| == |Removals(s, id)| && !IsReserved(key)
    ensures Find(DropVia(s, id, dels).data, key)
         == if key in ShownAt(Removals(s, id), dels) then None else Find(s.data, key)
    ensures key in ShownAt(Removals(s, id), dels) ==> Mine(id, key)
  {
    hide Indexed, Listing, PrefixOf, MetaOf, LegacyOf, AfterDeletesVia, IsReserved, NoneReserved, ShownAt, Removals;
    MetaIsReserved();
    DropKeys(s, id);
    StaleKeys(s, PrefixOf(id));
    DeletesViaFinds(s, Removals(s, id), dels, key);
    ShownAreKeys(Removals(s, id), dels, key);
  }

  /** However the flusher moves during Delete, the session is gone if and only if
      no record of it is left over that was hidden when it was to be deleted; no
      other session changes. */
  lemma DropViaStoredIff(s: KvState, id: Id, dels: seq<map<Bytes, Bytes>>)
    requires Indexed(s) && |dels| == |Removals(s, id)|
    ensures Indexed(DropVia(s, id, dels))
    ensures Stored(DropVia(s, id, dels), id) == None <==> NoLeftRecord(s, id, ShownAt(Removals(s, id), dels))
    ensures forall other :: other != id ==> Stored(DropVia(s, id, dels), other) == Stored(s, other)
  {
    hide Indexed, PrefixOf, MetaOf, LegacyOf, Stored, NoLeftRecord, IsReserved, NoneReserved, ShownAt, Removals,
         AfterDeletesVia, Mine;
    var u, shown := DropVia(s, id, dels), ShownAt(Removals(s, id), dels);
    DropKeys(s, id);
    DeletesViaIndexed(s, Removals(s, id), dels);
    RecordKeysOrdinary(id);
    DropViaFinds(s, id, dels, MetaOf(id));
    DropViaFinds(s, id, dels, LegacyOf(id));
    LeftRecordIff(s, u, id, shown);
    forall other | other != id ensures Stored(u, other) == Stored(s, other) {
      forall k | Mine(other, k) ensures Find(s.data, k) == Find(u.data, k) {
        MineOrdinary(other, k);
        NotMine(id, other, k);
        DropViaFinds(s, id, dels, k);
      }
      SameStored(s, u, other);
    }
  }

  lemma SameStored(s: KvState, u: KvState, id: Id)
    requires Indexed(s) && Indexed(u) && forall k :: Mine(id, k) ==> Find(s.data, k) == Find(u.data, k)
    ensures Stored(u, id) == Stored(s, id)
  {
    hide Indexed, SessionAt, Mine;
    SettledIndexed(s);
    SettledIndexed(u);
    SameSession(Settled(s), Settled(u), id);
  }

  // ---- runs ----

  /** A call with the moves of the flusher during it. */
  datatype Call =
    | SaveCall(session: ConversationSession, moves: Moves)
    | AppendCall(id: Id, model: Bytes, turn: ConversationTurn, moves: Moves)
    | TrimCall(id: Id, keep: nat, moves: Moves)
    | DeleteCall(id: Id, dels: seq<map<Bytes, Bytes>>)

  function Target(c: Call): Id {
    if c.SaveCall? then IdOf(c.session) else c.id
  }

  /** The session a call saves, if any, once it has found the current one. */
  function Saving(current: Option<ConversationSession>, c: Call): Option<ConversationSession> {
    match c
    case SaveCall(session, _) => if session.sessionId == [] then None else Some(session)
    case AppendCall(id, model, turn, _) =>
      var session := Appended(current, id, model, turn);
      if session.sessionId == [] then None else Some(session)
    case TrimCall(_, keep, _) =>
      if current.None? || |current.value.turns| <= keep || current.value.sessionId == [] then None
      else Some(Trimmed(current.value, keep))
    case DeleteCall(_, _) => None
  }

  /** What a call does to the session it names, said without any key or record. */
  function SessionAfter(current: Option<ConversationSession>, c: Call): Option<ConversationSession> {
    if c.DeleteCall? then None
    else
      var session := Saving(current, c);
      if session.None? then current else Some(Readable(session.value))
  }

  /** Sequence numbers are 32 bits wide, and there is a view for each step. */
  predicate Fits(s: KvState, c: Call) {
    if c.DeleteCall? then |c.dels| == |Removals(s, c.id)|
    else
      var session := Saving(SessionAt(s, Target(c)), c);
      session.Some? ==> Spans(s, session.value, c.moves)
  }

  function AfterCall(s: KvState, c: Call): KvState
    requires Fits(s, c)
  {
    if c.DeleteCall? then DropVia(s, c.id, c.dels)
    else
      var session := Saving(SessionAt(s, Target(c)), c);
      if session.None? then s else SaveVia(s, session.value, c.moves)
  }

  /** AppendTurn and TrimToLastTurns find the session that is stored. */
  predicate Found(s: KvState, c: Call) {
    c.AppendCall? || c.TrimCall? ==> SessionAt(s, c.id) == Stored(s, c.id)
  }

  /** Nothing of the session was hidden that the call had to delete. */
  ghost predicate Sweeps(s: KvState, c: Call)
    requires Fits(s, c)
  {
    if c.DeleteCall? then NoLeftRecord(s, c.id, ShownAt(Removals(s, c.id), c.dels))
    else
      var session := Saving(SessionAt(s, Target(c)), c);
      session.Some? ==>
        var id := IdOf(session.value);
        NoLeftTurns(s, id, |session.value.turns|, SweptAt(s, id, c.moves.dels))
  }

  /** Sessions lie under their own keys: true of everything the store itself
      wrote, and kept by all its operations. */
  ghost predicate Filed(s: KvState) {
    forall id :: Stored(s, id).Some? ==> IdOf(Stored(s, id).value) == id
  }

  /** What every step keeps. */
  ghost predicate Orderly(s: KvState) {
    Indexed(s) && [] !in s.known && Filed(s)
  }

  /** What is saved is filed where the call says. */
  lemma SavingIsTarget(s: KvState, c: Call)
    requires Filed(s) && Found(s, c)
    ensures var session := Saving(SessionAt(s, Target(c)), c);
            session.Some? ==> IdOf(session.value) == Target(c) && session.value.sessionId != []
  {
    hide SessionAt;
    assert Stored(s, Target(c)).Some? ==> IdOf(Stored(s, Target(c)).value) == Target(c);
  }

  /** A call that finds the session as it is stored does to it what it should if
      and only if nothing it had to delete was hidden at that moment. */
  lemma CallExactIff(s: KvState, c: Call)
    requires Orderly(s) && Fits(s, c) && Found(s, c)
    ensures Stored(AfterCall(s, c), Target(c)) == SessionAfter(Stored(s, Target(c)), c) <==> Sweeps(s, c)
  {
    hide Indexed, SaveVia, DropVia, Stored, SessionAt, Readable, NoLeftTurns, NoLeftRecord, ShownAt, SweptAt, Removals,
         Spans, Filed;
    SavingIsTarget(s, c);
    if c.DeleteCall? {
      DropViaStoredIff(s, c.id, c.dels);
    } else {
      var session := Saving(SessionAt(s, Target(c)), c);
      if session.Some? {
        SaveViaStoredIff(s, session.value, c.moves);
      }
    }
  }

  /** Every call whose session is found and swept does to it what SessionAfter
      says, and nothing to any other. */
  lemma CallRefines(s: KvState, c: Call, id: Id)
    requires Orderly(s) && Fits(s, c) && Found(s, c) && Sweeps(s, c)
    ensures Orderly(AfterCall(s, c))
    ensures Stored(AfterCall(s, c), id) == if id == Target(c) then SessionAfter(Stored(s, id), c) else Stored(s, id)
  {
    hide Indexed, AfterCall, Stored, SessionAt, Sweeps, Fits;
    CallExactIff(s, c);
    CallElsewhere(s, c);
    CallNoEmpty(s, c);
    AfterIsTarget(s, c);
  }

  lemma AfterIsTarget(s: KvState, c: Call)
    requires Filed(s) && Found(s, c)
    ensures var after := SessionAfter(Stored(s, Target(c)), c); after.Some? ==> IdOf(after.value) == Target(c)
  {
    hide SessionAt;
    SavingIsTarget(s, c);
    assert Stored(s, Target(c)).Some? ==> IdOf(Stored(s, Target(c)).value) == Target(c);
  }

  lemma CallElsewhere(s: KvState, c: Call)
    requires Indexed(s) && Filed(s) && Fits(s, c) && Found(s, c)
    ensures Indexed(AfterCall(s, c))
    ensures forall id :: id != Target(c) ==> Stored(AfterCall(s, c), id) == Stored(s, id)
  {
    hide Indexed, SaveVia, DropVia, Stored, SessionAt, Filed, Removals, Spans, NoLeftRecord;
    SavingIsTarget(s, c);
    if c.DeleteCall? {
      DropViaStoredIff(s, c.id, c.dels);
    } else {
      var session := Saving(SessionAt(s, Target(c)), c);
      if session.Some? {
        SaveViaIndexed(s, session.value, c.moves);
        forall id | id != Target(c) ensures Stored(AfterCall(s, c), id) == Stored(s, id) {
          SaveViaElsewhere(s, session.value, c.moves, id);
        }
      }
    }
  }

  // ---- what a call that does not find the session leaves ----

  function TurnsFound(found: Option<ConversationSession>): seq<ConversationTurn> {
    if found.Some? then found.value.turns else []
  }

  /** AppendTurn, whatever of the session is hidden at whatever moments: the old
      turns and the new one are stored if and only if it found the old turns. */
  lemma AppendExactIff(s: KvState, was: ConversationSession, c: Call)
    requires Indexed(s) && Holds(s, was) && AllSpoken(was.turns)
    requires c.AppendCall? && c.id == IdOf(was) && c.turn.role != [] && Fits(s, c)
    requires SessionAt(s, c.id).Some? ==> IdOf(SessionAt(s, c.id).value) == c.id
    ensures var after := Stored(AfterCall(s, c), c.id);
            && after.Some?
            && (after.value.turns == was.turns + [c.turn] <==>
                SpokenTurns(TurnsFound(SessionAt(s, c.id))) == was.turns)
  {
    hide Indexed, SaveVia, SessionAt, OnRecord, OnlySpeak, HiddenTurns, SweptAt, SpokenTurns, Spans, Stored;
    var found := SessionAt(s, c.id);
    var session := Appended(found, c.id, c.model, c.turn);
    var turns := TurnsFound(found);
    assert session.turns == turns + [c.turn];
    SpansFits(s, session, c.moves);
    SaveViaOverHidden(s, was, session, c.moves);
    var shown := SweptAt(s, c.id, c.moves.dels);
    var left := HiddenTurns(c.id, was.turns, |session.turns|, shown);
    HiddenFew(c.id, was.turns, |session.turns|, shown);
    SpokenTurnsIff(left);
    SpokenConcat(turns, [c.turn]);
    SpokenTurnsIff([c.turn]);
    SpokenTurnsIff(turns);
    assert Stored(AfterCall(s, c), c.id).value.turns == SpokenTurns(turns) + [c.turn] + left;
    AppendedEqual(SpokenTurns(turns), left, was.turns, c.turn);
  }

  lemma AppendedEqual(found: seq<ConversationTurn>, left: seq<ConversationTurn>, was: seq<ConversationTurn>,
                      turn: ConversationTurn)
    requires |left| == 0 || |found| + 1 + |left| <= |was|
    requires |found| >= |was| ==> left == []
    ensures found + [turn] + left == was + [turn] <==> found == was
  {
    if found + [turn] + left == was + [turn] {
      assert |found + [turn] + left| == |was + [turn]|;
      assert left == [];
      assert found == (found + [turn] + left)[..|found|];
      assert was == (was + [turn])[..|was|];
    }
  }

  function Last(turns: seq<ConversationTurn>, n: nat): seq<ConversationTurn> {
    if |turns| <= n then turns else turns[|turns| - n..]
  }

  /** TrimToLastTurns, whatever is hidden: the last turns are stored if and only if
      it found those and saw every old turn it does not overwrite, or had to save
      nothing. */
  lemma TrimExactIff(s: KvState, was: ConversationSession, c: Call)
    requires Indexed(s) && Holds(s, was) && AllSpoken(was.turns)
    requires c.TrimCall? && c.id == IdOf(was) && Fits(s, c)
    requires SessionAt(s, c.id).Some? ==>
               IdOf(SessionAt(s, c.id).value) == c.id && AllSpoken(SessionAt(s, c.id).value.turns)
    ensures var after, found := Stored(AfterCall(s, c), c.id), TurnsFound(SessionAt(s, c.id));
            && after.Some?
            && (after.value.turns == Last(was.turns, c.keep) <==>
                if |found| <= c.keep then |was.turns| <= c.keep
                else
                  && Last(found, c.keep) == Last(was.turns, c.keep)
                  && |c.moves.dels| == |Listing(s, PrefixOf(c.id))|
                  && HiddenTurns(c.id, was.turns, c.keep, SweptAt(s, c.id, c.moves.dels)) == [])
  {
    hide Indexed, SaveVia, SessionAt, OnRecord, OnlySpeak, HiddenTurns, SweptAt, SpokenTurns, Spans, Stored, AllSpoken,
         PrefixOf, Listing;
    var found := SessionAt(s, c.id);
    HoldsIsStored(s, was);
    SpokenTurnsIff(was.turns);
    if |TurnsFound(found)| > c.keep {
      var session := Trimmed(found.value, c.keep);
      SpansFits(s, session, c.moves);
      SaveViaOverHidden(s, was, session, c.moves);
      var shown := SweptAt(s, c.id, c.moves.dels);
      var left := HiddenTurns(c.id, was.turns, c.keep, shown);
      HiddenFew(c.id, was.turns, c.keep, shown);
      SpokenTurnsIff(left);
      LastSpoken(found.value.turns, |found.value.turns| - c.keep);
      var after := Stored(AfterCall(s, c), c.id).value.turns;
      assert after == session.turns + left;
      assert |after| == c.keep + |left| && (left == [] ==> after == session.turns);
    }
  }

  /** With a flusher that stands still a call is the one the store object makes. */
  lemma AppendStill(s: KvState, id: Id, model: Bytes, turn: ConversationTurn) returns (moves: Moves)
    requires |Appended(SessionAt(s, id), id, model, turn).turns| <= UINT32_MAX
    ensures Fits(s, AppendCall(id, model, turn, moves))
    ensures AfterCall(s, AppendCall(id, model, turn, moves)) == AfterAppend(s, id, model, turn)
  {
    hide SessionAt, SaveVia, AfterSave, Spans;
    moves := SaveViaStill(s, Appended(SessionAt(s, id), id, model, turn));
  }

  lemma TrimStill(s: KvState, id: Id, keep: nat) returns (moves: Moves)
    requires |TurnsFound(SessionAt(s, id))| <= UINT32_MAX
    ensures Fits(s, TrimCall(id, keep, moves))
    ensures AfterCall(s, TrimCall(id, keep, moves)) == AfterTrim(s, id, keep)
  {
    hide SessionAt, SaveVia, AfterSave, Spans;
    var found := SessionAt(s, id);
    if found.Some? && |found.value.turns| > keep {
      moves := SaveViaStill(s, Trimmed(found.value, keep));
    } else {
      moves := Moves([], []);
    }
  }

  lemma KnownIff(s: KvState, key: Bytes)
    requires Indexed(s) && !IsReserved(key)
    ensures key in s.known <==> Find(s.data, key).Some?
  {
  }

  lemma CallNoEmpty(s: KvState, c: Call)
    requires Indexed(s) && [] !in s.known && Fits(s, c) && Indexed(AfterCall(s, c))
    ensures [] !in AfterCall(s, c).known
  {
    hide Indexed, SaveVia, DropVia, SessionAt, PrefixOf, MetaOf, LegacyOf, TurnOf, SessionEntries, PutAll, Removals,
         ShownAt, SweptAt, Spans, SerializeSummary, SerializeLegacy;
    KnownIff(s, []);
    KnownIff(AfterCall(s, c), []);
    if c.DeleteCall? {
      DropViaFinds(s, c.id, c.dels, []);
    } else {
      var session := Saving(SessionAt(s, Target(c)), c);
      if session.Some? {
        var id := IdOf(session.value);
        assert |session.value.turns| <= UINT32_MAX by { SpansFits(s, session.value, c.moves); }
        var m := SaveViaFinds(s, session.value, c.moves, []);
        RecordKeysOrdinary(id);
        forall n | 0 <= n < |session.value.turns| ensures TurnOf(id, n) != [] { TurnKeyOrdinary(id, n); }
        PutMisses(m, session.value, []);
      }
    }
  }

  lemma SpansFits(s: KvState, session: ConversationSession, moves: Moves)
    requires Spans(s, session, moves)
    ensures |session.turns| <= UINT32_MAX && |moves.dels| == |Listing(s, PrefixOf(IdOf(session)))|
  {
  }

  /** A session that is shown all through a call is found and swept. */
  lemma ShownSuffices(s: KvState, id: Id)
    requires Indexed(s) && Clear(s, id)
    ensures SessionAt(s, id) == Stored(s, id) && NoLeftRecord(s, id, s.seen.Keys)
    ensures forall count: nat :: NoLeftTurns(s, id, count, s.seen.Keys)
  {
    hide Indexed, SessionAt, PrefixOf, MetaOf, LegacyOf, TurnOf, ParsedTurn, ParsedSummary, ParsedLegacy;
    ClearReads(s, id);
    assert forall k :: Mine(id, k) && k in s.data ==> Find(s.seen, k) == Find(s.data, k) && k in s.seen;
    assert Mine(id, MetaOf(id)) && Mine(id, LegacyOf(id));
  }

  /** A call, a step of the flusher (which changes only what is shown), or a
      restart of the store. */
  datatype Event = Made(call: Call) | Flushing(shown: map<Bytes, Bytes>) | Restarted

  /** A call finds its session and sweeps it, and its turns fit. */
  ghost predicate Timely(s: KvState, e: Event) {
    e.Made? ==> Fits(s, e.call) && Found(s, e.call) && Sweeps(s, e.call)
  }

  function AfterEvent(s: KvState, e: Event): KvState
    requires e.Made? ==> Fits(s, e.call)
  {
    match e
    case Made(call) => AfterCall(s, call)
    case Flushing(shown) => s.(seen := shown)
    case Restarted => AfterReopen(s)
  }

  lemma RestartKeeps(s: KvState, id: Id)
    requires Indexed(s) && [] !in s.known
    ensures Agrees(AfterReopen(s)) && [] !in AfterReopen(s).known
    ensures SessionAt(AfterReopen(s), id) == Stored(s, id) && Stored(AfterReopen(s), id) == Stored(s, id)
  {
    hide AfterReopen, SessionAt, PrefixOf, MetaOf, LegacyOf, SortKeys, TotalBytes, Serialized, IsReserved;
    var t := AfterReopen(s);
    ReopenAgreesIff(s);
    SortKeysMembers(s.known, []);
    SettledIndexed(s);
    SameSession(Settled(s), t, id);
    assert Settled(t) == t;
  }

  /** Sessions survive closing and opening the store, and are shown afterwards. */
  lemma ReopenKeepsSessions(s: KvState, id: Id)
    requires Indexed(s) && [] !in s.known
    ensures Agrees(AfterReopen(s)) && SessionAt(AfterReopen(s), id) == Stored(s, id)
  {
    RestartKeeps(s, id);
  }

  lemma EventRefines(s: KvState, e: Event, id: Id)
    requires Orderly(s) && Timely(s, e)
    ensures Orderly(AfterEvent(s, e))
    ensures Stored(AfterEvent(s, e), id)
         == if e.Made? && Target(e.call) == id then SessionAfter(Stored(s, id), e.call) else Stored(s, id)
  {
    hide Indexed, AfterCall, AfterReopen, SessionAt, Fits, Found, Sweeps, TotalBytes;
    match e
    case Made(call) => CallRefines(s, call, id);
    case Flushing(shown) => ShownOnly(s, shown);
    case Restarted =>
      forall i ensures Stored(AfterReopen(s), i) == Stored(s, i) { RestartKeeps(s, i); }
      RestartKeeps(s, id);
  }

  lemma ShownOnly(s: KvState, shown: map<Bytes, Bytes>)
    requires Indexed(s)
    ensures Indexed(s.(seen := shown)) && Settled(s.(seen := shown)) == Settled(s)
    ensures forall id :: Stored(s.(seen := shown), id) == Stored(s, id)
  {
  }

  function SessionRun(current: Option<ConversationSession>, id: Id, events: seq<Event>): Option<ConversationSession>
    decreases |events|
  {
    if events == [] then current
    else
      var e := events[0];
      SessionRun(if e.Made? && Target(e.call) == id then SessionAfter(current, e.call) else current, id, events[1..])
  }

  ghost predicate AllTimely(s: KvState, events: seq<Event>)
    decreases |events|
  {
    events == [] || (Timely(s, events[0]) && AllTimely(AfterEvent(s, events[0]), events[1..]))
  }

  function RunEvents(s: KvState, events: seq<Event>): KvState
    requires AllTimely(s, events)
    decreases |events|
  {
    if events == [] then s else RunEvents(AfterEvent(s, events[0]), events[1..])
  }

  /** Over every run of saves, appends, trims and deletes, interleaved over any
      number of sessions, with any restarts between the calls and any steps of the
      flusher between and during them, the store is a map from identifiers to
      sessions, if each call finds and sweeps its own session; CallExactIff says
      that it needs exactly that, and SaveViaOverHidden what happens otherwise. */
  lemma {:induction false} RunRefines(s: KvState, events: seq<Event>, id: Id)
    requires Orderly(s) && AllTimely(s, events)
    ensures Orderly(RunEvents(s, events))
    ensures Stored(RunEvents(s, events), id) == SessionRun(Stored(s, id), id, events)
    decreases |events|
  {
    if events != [] {
      hide Orderly, SessionAt, AfterEvent, SessionAfter, Timely;
      EventRefines(s, events[0], id);
      RunRefines(AfterEvent(s, events[0]), events[1..], id);
    }
  }

  /** An empty store is where every run starts. */
  lemma EmptyIsOrderly()
    ensures Orderly(KvState(map[], map[], [], 0))
  {
  }
}
