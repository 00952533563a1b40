/** The text records of conversations: rows of tab separated columns, written
    with every tab and line break of the data escaped. */
module Records {
  import opened ByteOrder
  import opened Runs
  import opened Codec
  import opened DbModel

  type Int64 = x: int | INT64_MIN <= x <= INT64_MAX
  type UInt32 = x: int | 0 <= x <= UINT32_MAX

  datatype ConversationTurn = ConversationTurn(role: Bytes, content: Bytes, createdAtMs: Int64)

  datatype ConversationSession = ConversationSession(
    tenant: Bytes, appId: Bytes, sessionId: Bytes, model: Bytes, turns: seq<ConversationTurn>)

  datatype ConversationSummary = ConversationSummary(
    tenant: Bytes, appId: Bytes, sessionId: Bytes, model: Bytes, turnCount: UInt32, updatedAtMs: Int64)

  // ---- rows ----

  type Row = seq<Bytes>

  function RowText(row: Row): Bytes
    requires row != []
  {
    if |row| == 1 then row[0] else row[0] + "\t" + RowText(row[1..])
  }

  function RecordText(rows: seq<Row>): Bytes
    requires [] !in rows
  {
    if rows == [] then [] else RowText(rows[0]) + "\n" + RecordText(rows[1..])
  }

  /** What a parser's loop sees: the columns of every line. */
  function TokenRows(lines: seq<Bytes>): seq<Row> {
    if lines == [] then [] else [Tokens(lines[0], '\t')] + TokenRows(lines[1..])
  }

  function RowsOf(payload: Bytes): seq<Row> {
    TokenRows(Lines(payload))
  }

  predicate PlainText(s: Bytes) {
    '\n' !in s && '\t' !in s
  }

  predicate PlainRow(row: Row) {
    row != [] && forall i :: 0 <= i < |row| ==> PlainText(row[i])
  }

  predicate PlainRows(rows: seq<Row>) {
    forall i :: 0 <= i < |rows| ==> PlainRow(rows[i])
  }

  lemma {:induction false} RowTokens(row: Row)
    requires PlainRow(row)
    ensures Tokens(RowText(row), '\t') == row && '\n' !in RowText(row)
  {
    assert PlainText(row[0]);
    if |row| == 1 {
      assert IndexOf(row[0], '\t') == |row[0]|;
    } else {
      hide IndexOf;
      forall i | 0 <= i < |row[1..]| ensures PlainText(row[1..][i]) {
        assert row[1..][i] == row[i + 1];
      }
      RowTokens(row[1..]);
      FirstToken(row[0], RowText(row[1..]));
    }
  }

  lemma FirstToken(first: Bytes, rest: Bytes)
    requires '\t' !in first
    ensures Tokens(first + "\t" + rest, '\t') == [first] + Tokens(rest, '\t')
  {
    var s := first + "\t" + rest;
    IndexOfConcat(first, '\t', rest);
    assert s[..|first|] == first && s[|first| + 1..] == rest;
  }

  /** Writing and reading rows of plain columns is the identity. */
  lemma {:induction false} RecordRoundTrip(rows: seq<Row>)
    requires PlainRows(rows)
    ensures [] !in rows && RowsOf(RecordText(rows)) == rows
  {
    NoEmptyRow(rows);
    if rows != [] {
      hide Tokens, Lines, RowText;
      assert PlainRow(rows[0]);
      forall i | 0 <= i < |rows[1..]| ensures PlainRow(rows[1..][i]) {
        assert rows[1..][i] == rows[i + 1];
      }
      RecordRoundTrip(rows[1..]);
      RowTokens(rows[0]);
      var rest := RecordText(rows[1..]);
      LineFirst(RowText(rows[0]), rest);
      assert ([RowText(rows[0])] + Lines(rest))[1..] == Lines(rest);
    }
  }

  lemma NoEmptyRow(rows: seq<Row>)
    requires PlainRows(rows)
    ensures [] !in rows
  {
    assert forall i :: 0 <= i < |rows| ==> PlainRow(rows[i]);
  }

  /** A record ends in a line break, so the database never takes it for a tombstone. */
  lemma {:induction false} RecordIsNoTombstone(rows: seq<Row>)
    requires [] !in rows && rows != []
    ensures RecordText(rows) != [] && RecordText(rows)[|RecordText(rows)| - 1] == '\n'
    ensures RecordText(rows) != TOMBSTONE
  {
    hide RowText;
    var first := RowText(rows[0]) + "\n";
    if |rows| == 1 {
      assert RecordText(rows) == first;
    } else {
      assert rows[1] in rows[1..];
      RecordIsNoTombstone(rows[1..]);
    }
    assert TOMBSTONE[17] == 0x1F as char && |TOMBSTONE| == 18;
  }

  // ---- turns ----

  const NO_TURN := ConversationTurn([], [], 0)

  function TurnRows(turn: ConversationTurn): seq<Row> {
    [["role", Escaped(turn.role)],
     ["content", Escaped(turn.content)],
     ["created_at_ms", Shown(turn.createdAtMs)]]
  }

  function SerializeTurn(turn: ConversationTurn): Bytes {
    RecordText(TurnRows(turn))
  }

  /** One round of the parser's loop; None where it gives up. */
  function TurnField(turn: ConversationTurn, row: Row): Option<ConversationTurn> {
    if |row| != 2 then Some(turn)
    else if row[0] == "role" then Some(turn.(role := Unescaped(row[1], false)))
    else if row[0] == "content" then Some(turn.(content := Unescaped(row[1], false)))
    else if row[0] == "created_at_ms" then
      match ParseInteger(row[1], INT64_MIN, INT64_MAX)
      case None => None
      case Some(v) => Some(turn.(createdAtMs := v))
    else Some(turn)
  }

  function TurnFrom(turn: ConversationTurn, rows: seq<Row>): Option<ConversationTurn>
    decreases |rows|
  {
    if rows == [] then Some(turn)
    else
      match TurnField(turn, rows[0])
      case None => None
      case Some(t) => TurnFrom(t, rows[1..])
  }

  function Spoken(turn: Option<ConversationTurn>): Option<ConversationTurn> {
    if turn.Some? && turn.value.role == [] then None else turn
  }

  function ParsedTurn(payload: Bytes): Option<ConversationTurn> {
    Spoken(TurnFrom(NO_TURN, RowsOf(payload)))
  }

  method ParseConversationTurn(payload: Bytes) returns (r: Option<ConversationTurn>)
    ensures r == ParsedTurn(payload)
  {
    hide RowsOf, TurnField;
    var rows := RowsOf(payload);
    var turn := NO_TURN;
    assert rows[0..] == rows;
    for i := 0 to |rows|
      invariant TurnFrom(turn, rows[i..]) == TurnFrom(NO_TURN, rows)
    {
      assert rows[i..][1..] == rows[i + 1..];
      var next := TurnField(turn, rows[i]);
      if next.None? {
        return None;
      }
      turn := next.value;
    }
    return if turn.role == [] then None else Some(turn);
  }

  lemma EscapedRow(name: Bytes, raw: Bytes)
    requires PlainText(name)
    ensures PlainRow([name, Escaped(raw)])
  {
    EscapedIsPlain(raw);
  }

  lemma NumberRow(name: Bytes, n: int)
    requires PlainText(name)
    ensures PlainRow([name, Shown(n)])
  {
    ParseShown(n, if n < 0 then n else 0, if n < 0 then 0 else n);
  }

  lemma TurnRowsPlain(turn: ConversationTurn)
    ensures PlainRows(TurnRows(turn))
  {
    hide PlainRow, Escaped, Shown;
    EscapedRow("role", turn.role);
    EscapedRow("content", turn.content);
    NumberRow("created_at_ms", turn.createdAtMs);
  }

  lemma TurnFromRows(turn: ConversationTurn)
    ensures TurnFrom(NO_TURN, TurnRows(turn)) == Some(turn)
  {
    hide Escaped, Unescaped, Shown, ParseInteger;
    UnescapeEscaped(turn.role);
    UnescapeEscaped(turn.content);
    ParseShown(turn.createdAtMs, INT64_MIN, INT64_MAX);
    var rows := TurnRows(turn);
    var a := NO_TURN.(role := turn.role);
    var b := a.(content := turn.content);
    assert "role"[0] != "content"[0];
    assert TurnField(NO_TURN, rows[0]) == Some(a);
    assert TurnField(a, rows[1]) == Some(b);
    assert TurnField(b, rows[2]) == Some(turn);
    assert rows[1..][0] == rows[1] && rows[1..][1..][0] == rows[2] && rows[1..][1..][1..] == [];
    assert TurnFrom(b, rows[1..][1..]) == TurnFrom(turn, []);
  }

  /** A turn is read back unless its role is empty; then it is dropped. */
  lemma TurnRoundTrip(turn: ConversationTurn)
    ensures [] !in TurnRows(turn)
    ensures ParsedTurn(SerializeTurn(turn)) == if turn.role == [] then None else Some(turn)
    ensures SerializeTurn(turn) != TOMBSTONE
  {
    hide RecordText, RowsOf, TurnFrom;
    TurnRowsPlain(turn);
    RecordRoundTrip(TurnRows(turn));
    TurnFromRows(turn);
    RecordIsNoTombstone(TurnRows(turn));
  }

  // ---- summaries ----

  const NO_SUMMARY := ConversationSummary([], [], [], [], 0, 0)

  function SummaryRows(m: ConversationSummary): seq<Row> {
    [["tenant", Escaped(m.tenant)],
     ["app_id", Escaped(m.appId)],
     ["session_id", Escaped(m.sessionId)],
     ["model", Escaped(m.model)],
     ["turn_count", Shown(m.turnCount)],
     ["updated_at_ms", Shown(m.updatedAtMs)]]
  }

  function SerializeSummary(m: ConversationSummary): Bytes {
    RecordText(SummaryRows(m))
  }

  function SummaryField(m: ConversationSummary, row: Row): Option<ConversationSummary> {
    if |row| != 2 then Some(m)
    else if row[0] == "tenant" then Some(m.(tenant := Unescaped(row[1], false)))
    else if row[0] == "app_id" then Some(m.(appId := Unescaped(row[1], false)))
    else if row[0] == "session_id" then Some(m.(sessionId := Unescaped(row[1], false)))
    else if row[0] == "model" then Some(m.(model := Unescaped(row[1], false)))
    else if row[0] == "turn_count" then
      match ParseInteger(row[1], 0, UINT32_MAX)
      case None => None
      case Some(v) => Some(m.(turnCount := v))
    else if row[0] == "updated_at_ms" then
      match ParseInteger(row[1], INT64_MIN, INT64_MAX)
      case None => None
      case Some(v) => Some(m.(updatedAtMs := v))
    else Some(m)
  }

  function SummaryFrom(m: ConversationSummary, rows: seq<Row>): Option<ConversationSummary>
    decreases |rows|
  {
    if rows == [] then Some(m)
    else
      match SummaryField(m, rows[0])
      case None => None
      case Some(n) => SummaryFrom(n, rows[1..])
  }

  function ParsedSummary(payload: Bytes): Option<ConversationSummary> {
    var r := SummaryFrom(NO_SUMMARY, RowsOf(payload));
    if r.Some? && r.value.sessionId == [] then None else r
  }

  method ParseConversationSummary(payload: Bytes) returns (r: Option<ConversationSummary>)
    ensures r == ParsedSummary(payload)
  {
    hide RowsOf, SummaryField;
    var rows := RowsOf(payload);
    var m := NO_SUMMARY;
    assert rows[0..] == rows;
    for i := 0 to |rows|
      invariant SummaryFrom(m, rows[i..]) == SummaryFrom(NO_SUMMARY, rows)
    {
      assert rows[i..][1..] == rows[i + 1..];
      var next := SummaryField(m, rows[i]);
      if next.None? {
        return None;
      }
      m := next.value;
    }
    return if m.sessionId == [] then None else Some(m);
  }

  lemma SummaryRowsPlain(m: ConversationSummary)
    ensures PlainRows(SummaryRows(m))
  {
    hide PlainRow, Escaped, Shown;
    EscapedRow("tenant", m.tenant);
    EscapedRow("app_id", m.appId);
    EscapedRow("session_id", m.sessionId);
    EscapedRow("model", m.model);
    NumberRow("turn_count", m.turnCount);
    NumberRow("updated_at_ms", m.updatedAtMs);
  }

  lemma FieldNamesDiffer()
    ensures "tenant"[0] == 't' && "app_id"[0] == 'a' && "session_id"[0] == 's' && "model"[0] == 'm'
    ensures "turn_count"[0] == 't' && "updated_at_ms"[0] == 'u' && "turn"[0] == 't'
  {
  }

  /** The first two fields of any row of strings. */
  lemma SummaryTexts(m: ConversationSummary)
    ensures SummaryFrom(NO_SUMMARY, SummaryRows(m)[..4])
         == Some(ConversationSummary(m.tenant, m.appId, m.sessionId, m.model, 0, 0))
  {
    hide Escaped, Unescaped, Shown, ParseInteger;
    UnescapeEscaped(m.tenant);
    UnescapeEscaped(m.appId);
    UnescapeEscaped(m.sessionId);
    UnescapeEscaped(m.model);
    FieldNamesDiffer();
    var rows := SummaryRows(m)[..4];
    var a := NO_SUMMARY.(tenant := m.tenant);
    var b := a.(appId := m.appId);
    var c := b.(sessionId := m.sessionId);
    var d := c.(model := m.model);
    assert rows[1..][0] == rows[1] && rows[1..][1..] == rows[2..] && rows[2..][0] == rows[2];
    assert rows[2..][1..] == rows[3..] && rows[3..][0] == rows[3] && rows[3..][1..] == [];
    assert SummaryFrom(NO_SUMMARY, rows) == SummaryFrom(a, rows[1..]);
    assert SummaryFrom(a, rows[1..]) == SummaryFrom(b, rows[2..]);
    assert SummaryFrom(b, rows[2..]) == SummaryFrom(c, rows[3..]);
    assert SummaryFrom(c, rows[3..]) == SummaryFrom(d, []);
  }

  lemma SummaryNumbers(m: ConversationSummary)
    ensures SummaryFrom(m.(turnCount := 0, updatedAtMs := 0), SummaryRows(m)[4..]) == Some(m)
  {
    hide Escaped, Unescaped, Shown, ParseInteger;
    ParseShown(m.turnCount, 0, UINT32_MAX);
    ParseShown(m.updatedAtMs, INT64_MIN, INT64_MAX);
    FieldNamesDiffer();
    var rows := SummaryRows(m)[4..];
    var a := m.(turnCount := 0, updatedAtMs := 0);
    var b := m.(updatedAtMs := 0);
    assert rows[0] == ["turn_count", Shown(m.turnCount)] && rows[1..][0] == ["updated_at_ms", Shown(m.updatedAtMs)];
    assert rows[1..][1..] == [];
    assert SummaryFrom(a, rows) == SummaryFrom(b, rows[1..]);
    assert SummaryFrom(b, rows[1..]) == SummaryFrom(m, []);
  }

  lemma {:induction false} SummaryFromConcat(m: ConversationSummary, p: seq<Row>, q: seq<Row>)
    ensures SummaryFrom(m, p + q) == var r := SummaryFrom(m, p); if r.None? then None else SummaryFrom(r.value, q)
    decreases |p|
  {
    hide SummaryField;
    if p == [] {
      assert p + q == q;
    } else {
      assert (p + q)[0] == p[0] && (p + q)[1..] == p[1..] + q;
      if SummaryField(m, p[0]).Some? {
        SummaryFromConcat(SummaryField(m, p[0]).value, p[1..], q);
      }
    }
  }

  /** A summary is read back unless its session id is empty. */
  lemma SummaryRoundTrip(m: ConversationSummary)
    ensures [] !in SummaryRows(m)
    ensures ParsedSummary(SerializeSummary(m)) == if m.sessionId == [] then None else Some(m)
    ensures SerializeSummary(m) != TOMBSTONE
  {
    hide RecordText, RowsOf, SummaryFrom;
    SummaryRowsPlain(m);
    var rows := SummaryRows(m);
    RecordRoundTrip(rows);
    SummaryTexts(m);
    SummaryNumbers(m);
    SummaryFromConcat(NO_SUMMARY, rows[..4], rows[4..]);
    assert rows[..4] + rows[4..] == rows;
    RecordIsNoTombstone(rows);
  }

  // ---- the legacy record: a whole session in one value ----

  const NO_SESSION := ConversationSession([], [], [], [], [])

  function LegacyTurnRow(turn: ConversationTurn): Row {
    ["turn", Escaped(turn.role), Shown(turn.createdAtMs), Escaped(turn.content)]
  }

  function LegacyTurnRows(turns: seq<ConversationTurn>): (rows: seq<Row>)
    ensures [] !in rows
  {
    if turns == [] then [] else [LegacyTurnRow(turns[0])] + LegacyTurnRows(turns[1..])
  }

  function LegacyRows(session: ConversationSession): (rows: seq<Row>)
    ensures [] !in rows && |rows| >= 4
  {
    [["tenant", Escaped(session.tenant)],
     ["app_id", Escaped(session.appId)],
     ["session_id", Escaped(session.sessionId)],
     ["model", Escaped(session.model)]] + LegacyTurnRows(session.turns)
  }

  function SerializeLegacy(session: ConversationSession): Bytes {
    RecordText(LegacyRows(session))
  }

  function LegacyField(session: ConversationSession, row: Row): Option<ConversationSession> {
    if row == [] then Some(session)
    else if row[0] == "tenant" && |row| == 2 then Some(session.(tenant := Unescaped(row[1], false)))
    else if row[0] == "app_id" && |row| == 2 then Some(session.(appId := Unescaped(row[1], false)))
    else if row[0] == "session_id" && |row| == 2 then Some(session.(sessionId := Unescaped(row[1], false)))
    else if row[0] == "model" && |row| == 2 then Some(session.(model := Unescaped(row[1], false)))
    else if row[0] == "turn" && |row| == 4 then
      match ParseInteger(row[2], INT64_MIN, INT64_MAX)
      case None => None
      case Some(v) =>
        Some(session.(turns := session.turns +
          [ConversationTurn(Unescaped(row[1], false), Unescaped(row[3], false), v)]))
    else Some(session)
  }

  function LegacyFrom(session: ConversationSession, rows: seq<Row>): Option<ConversationSession>
    decreases |rows|
  {
    if rows == [] then Some(session)
    else
      match LegacyField(session, rows[0])
      case None => None
      case Some(s) => LegacyFrom(s, rows[1..])
  }

  function ParsedLegacy(payload: Bytes): Option<ConversationSession> {
    var r := LegacyFrom(NO_SESSION, RowsOf(payload));
    if r.Some? && r.value.sessionId == [] then None else r
  }

  method ParseLegacyConversation(payload: Bytes) returns (r: Option<ConversationSession>)
    ensures r == ParsedLegacy(payload)
  {
    hide RowsOf, LegacyField;
    var rows := RowsOf(payload);
    var session := NO_SESSION;
    assert rows[0..] == rows;
    for i := 0 to |rows|
      invariant LegacyFrom(session, rows[i..]) == LegacyFrom(NO_SESSION, rows)
    {
      assert rows[i..][1..] == rows[i + 1..];
      var next := LegacyField(session, rows[i]);
      if next.None? {
        return None;
      }
      session := next.value;
    }
    return if session.sessionId == [] then None else Some(session);
  }

  lemma LegacyTurnReadBack(session: ConversationSession, turn: ConversationTurn)
    ensures LegacyField(session, LegacyTurnRow(turn)) == Some(session.(turns := session.turns + [turn]))
    ensures PlainRow(LegacyTurnRow(turn))
  {
    hide Escaped, Unescaped, Shown, ParseInteger;
    UnescapeEscaped(turn.role);
    UnescapeEscaped(turn.content);
    EscapedIsPlain(turn.role);
    EscapedIsPlain(turn.content);
    ParseShown(turn.createdAtMs, INT64_MIN, INT64_MAX);
    FieldNamesDiffer();
  }

  lemma {:induction false} LegacyTurnsReadBack(session: ConversationSession, turns: seq<ConversationTurn>)
    ensures LegacyFrom(session, LegacyTurnRows(turns)) == Some(session.(turns := session.turns + turns))
    ensures PlainRows(LegacyTurnRows(turns))
    decreases |turns|
  {
    hide LegacyField, LegacyTurnRow, PlainRow;
    if turns == [] {
      assert session.turns + turns == session.turns;
    } else {
      LegacyTurnReadBack(session, turns[0]);
      var next := session.(turns := session.turns + [turns[0]]);
      LegacyTurnsReadBack(next, turns[1..]);
      assert next.turns + turns[1..] == session.turns + turns;
      assert LegacyTurnRows(turns)[1..] == LegacyTurnRows(turns[1..]);
    }
  }

  lemma LegacyHead(session: ConversationSession, rest: seq<Row>)
    ensures LegacyFrom(NO_SESSION, LegacyRows(session.(turns := [])) + rest)
         == LegacyFrom(session.(turns := []), rest)
    ensures PlainRows(LegacyRows(session.(turns := [])))
  {
    hide Escaped, Unescaped, Shown, ParseInteger, PlainRow;
    UnescapeEscaped(session.tenant);
    UnescapeEscaped(session.appId);
    UnescapeEscaped(session.sessionId);
    UnescapeEscaped(session.model);
    EscapedRow("tenant", session.tenant);
    EscapedRow("app_id", session.appId);
    EscapedRow("session_id", session.sessionId);
    EscapedRow("model", session.model);
    FieldNamesDiffer();
    var head := LegacyRows(session.(turns := []));
    var rows := head + rest;
    var a := NO_SESSION.(tenant := session.tenant);
    var b := a.(appId := session.appId);
    var c := b.(sessionId := session.sessionId);
    var d := c.(model := session.model);
    assert rows[0] == head[0] && rows[1..][0] == head[1] && rows[1..][1..] == rows[2..];
    assert rows[2..][0] == head[2] && rows[2..][1..] == rows[3..] && rows[3..][0] == head[3] && rows[3..][1..] == rest;
    assert LegacyFrom(NO_SESSION, rows) == LegacyFrom(a, rows[1..]);
    assert LegacyFrom(a, rows[1..]) == LegacyFrom(b, rows[2..]);
    assert LegacyFrom(b, rows[2..]) == LegacyFrom(c, rows[3..]);
    assert LegacyFrom(c, rows[3..]) == LegacyFrom(d, rest);
  }

  /** A legacy record is read back whole, turns in order and empty roles included,
      unless its session id is empty. */
  lemma LegacyRoundTrip(session: ConversationSession)
    ensures ParsedLegacy(SerializeLegacy(session)) == if session.sessionId == [] then None else Some(session)
    ensures SerializeLegacy(session) != TOMBSTONE
  {
    hide RecordText, RowsOf, LegacyFrom, LegacyField, PlainRow;
    var bare := session.(turns := []);
    var rows := LegacyRows(session);
    assert rows == LegacyRows(bare) + LegacyTurnRows(session.turns);
    LegacyHead(session, LegacyTurnRows(session.turns));
    LegacyTurnsReadBack(bare, session.turns);
    assert [] + session.turns == session.turns;
    RecordRoundTrip(rows);
    RecordIsNoTombstone(rows);
  }
}
