/** What the record parsers make of any payload, said without their loops: the last
    row of a name counts, other rows are skipped, and one bad number refuses the
    whole record. */
module RecordLaws {
  import opened ByteOrder
  import opened Runs
  import opened Codec
  import opened Records

  /** The value of the last row with a name and one value. */
  function Named(rows: seq<Row>, name: Bytes): Option<Bytes> {
    if rows == [] then None
    else
      var later := Named(rows[1..], name);
      if later.Some? then later
      else if |rows[0]| == 2 && rows[0][0] == name then Some(rows[0][1])
      else None
  }

  function Text(rows: seq<Row>, name: Bytes, otherwise: Bytes): Bytes {
    var v := Named(rows, name);
    if v.Some? then Unescaped(v.value, false) else otherwise
  }

  function Number(rows: seq<Row>, name: Bytes, lo: int, hi: int, otherwise: int): int {
    var v := Named(rows, name);
    if v.Some? && ParseInteger(v.value, lo, hi).Some? then ParseInteger(v.value, lo, hi).value else otherwise
  }

  /** A row with a name whose value is no number in range. */
  predicate Bad(row: Row, name: Bytes, lo: int, hi: int) {
    |row| == 2 && row[0] == name && ParseInteger(row[1], lo, hi).None?
  }

  lemma TextStep(rows: seq<Row>, name: Bytes, otherwise: Bytes)
    requires rows != []
    ensures Text(rows, name, otherwise)
         == Text(rows[1..], name,
                 if |rows[0]| == 2 && rows[0][0] == name then Unescaped(rows[0][1], false) else otherwise)
  {
  }

  lemma {:induction false} NamedIsRow(rows: seq<Row>, name: Bytes, value: Bytes)
    requires Named(rows, name) == Some(value)
    ensures [name, value] in rows
  {
    if Named(rows[1..], name).Some? {
      NamedIsRow(rows[1..], name, value);
    } else {
      assert rows[0] == [name, value];
    }
  }

  lemma NumberStep(rows: seq<Row>, name: Bytes, lo: int, hi: int, otherwise: int)
    requires rows != [] && !Bad(rows[0], name, lo, hi) && forall row :: row in rows[1..] ==> !Bad(row, name, lo, hi)
    ensures Number(rows, name, lo, hi, otherwise)
         == Number(rows[1..], name, lo, hi,
                   if |rows[0]| == 2 && rows[0][0] == name then ParseInteger(rows[0][1], lo, hi).value else otherwise)
  {
    hide ParseInteger;
    var later := Named(rows[1..], name);
    if later.Some? {
      NamedIsRow(rows[1..], name, later.value);
      assert !Bad([name, later.value], name, lo, hi);
    }
  }

  // ---- turns ----

  ghost predicate BadTurnRow(row: Row) {
    Bad(row, "created_at_ms", INT64_MIN, INT64_MAX)
  }

  lemma TurnNames()
    ensures "role" != "content" && "role" != "created_at_ms" && "content" != "created_at_ms"
  {
    assert |"role"| == 4 && |"content"| == 7 && |"created_at_ms"| == 13;
  }

  lemma {:induction false} TurnFromIs(turn: ConversationTurn, rows: seq<Row>)
    ensures TurnFrom(turn, rows).None? <==> exists row :: row in rows && BadTurnRow(row)
    ensures var r := TurnFrom(turn, rows);
            r.Some? ==>
              && r.value.role == Text(rows, "role", turn.role)
              && r.value.content == Text(rows, "content", turn.content)
              && r.value.createdAtMs == Number(rows, "created_at_ms", INT64_MIN, INT64_MAX, turn.createdAtMs)
    decreases |rows|
  {
    if rows != [] {
      hide ParseInteger, Unescaped, Named;
      TurnNames();
      assert rows == [rows[0]] + rows[1..];
      TextStep(rows, "role", turn.role);
      TextStep(rows, "content", turn.content);
      var next := TurnField(turn, rows[0]);
      if next.Some? {
        TurnFromIs(next.value, rows[1..]);
        if TurnFrom(turn, rows).Some? {
          NumberStep(rows, "created_at_ms", INT64_MIN, INT64_MAX, turn.createdAtMs);
        }
      } else {
        assert BadTurnRow(rows[0]) && rows[0] in rows;
      }
    } else {
      assert Named(rows, "role") == Named(rows, "content") == Named(rows, "created_at_ms") == None;
    }
  }

  /** A payload is read as a turn if and only if no number in it is bad and it names
      a role, and then the turn is what the last row of each name says. */
  lemma ParsedTurnIs(payload: Bytes)
    ensures var rows, r := RowsOf(payload), ParsedTurn(payload);
            && (r.None? <==> (exists row :: row in rows && BadTurnRow(row)) || Text(rows, "role", []) == [])
            && (r.Some? ==>
                 && r.value.role == Text(rows, "role", []) && r.value.content == Text(rows, "content", [])
                 && r.value.createdAtMs == Number(rows, "created_at_ms", INT64_MIN, INT64_MAX, 0))
  {
    hide RowsOf, BadTurnRow, Text, Number, TurnFrom;
    TurnFromIs(NO_TURN, RowsOf(payload));
  }

  // ---- summaries ----

  ghost predicate BadSummaryRow(row: Row) {
    Bad(row, "turn_count", 0, UINT32_MAX) || Bad(row, "updated_at_ms", INT64_MIN, INT64_MAX)
  }

  lemma SummaryNames()
    ensures |"tenant"| == 6 && |"app_id"| == 6 && |"session_id"| == 10 && |"model"| == 5 && |"turn_count"| == 10
         && |"updated_at_ms"| == 13 && "tenant" != "app_id" && "session_id" != "turn_count"
  {
    assert "tenant"[0] != "app_id"[0] && "session_id"[0] != "turn_count"[0];
  }

  ghost predicate SummaryIs(m: ConversationSummary, rows: seq<Row>, start: ConversationSummary) {
    && m.tenant == Text(rows, "tenant", start.tenant) && m.appId == Text(rows, "app_id", start.appId)
    && m.sessionId == Text(rows, "session_id", start.sessionId) && m.model == Text(rows, "model", start.model)
    && m.turnCount == Number(rows, "turn_count", 0, UINT32_MAX, start.turnCount)
    && m.updatedAtMs == Number(rows, "updated_at_ms", INT64_MIN, INT64_MAX, start.updatedAtMs)
  }

  lemma {:induction false} SummaryFromIs(start: ConversationSummary, rows: seq<Row>)
    ensures SummaryFrom(start, rows).None? <==> exists row :: row in rows && BadSummaryRow(row)
    ensures SummaryFrom(start, rows).Some? ==> SummaryIs(SummaryFrom(start, rows).value, rows, start)
    decreases |rows|
  {
    if rows != [] {
      hide ParseInteger, Unescaped, Named;
      SummaryNames();
      assert rows == [rows[0]] + rows[1..];
      var next := SummaryField(start, rows[0]);
      if next.Some? {
        SummaryFromIs(next.value, rows[1..]);
        if SummaryFrom(start, rows).Some? { SummaryStep(start, rows, next.value); }
      } else {
        assert BadSummaryRow(rows[0]) && rows[0] in rows;
      }
    } else {
      assert Named(rows, "tenant") == Named(rows, "app_id") == Named(rows, "session_id") == Named(rows, "model")
          == Named(rows, "turn_count") == Named(rows, "updated_at_ms") == None;
    }
  }

  lemma SummaryStep(start: ConversationSummary, rows: seq<Row>, next: ConversationSummary)
    requires rows != [] && SummaryField(start, rows[0]) == Some(next)
    requires !BadSummaryRow(rows[0]) && forall row :: row in rows[1..] ==> !BadSummaryRow(row)
    ensures forall m :: SummaryIs(m, rows[1..], next) ==> SummaryIs(m, rows, start)
  {
    hide ParseInteger, Unescaped, Named, Text, Number;
    SummaryNames();
    TextStep(rows, "tenant", start.tenant);
    TextStep(rows, "app_id", start.appId);
    TextStep(rows, "session_id", start.sessionId);
    TextStep(rows, "model", start.model);
    NumberStep(rows, "turn_count", 0, UINT32_MAX, start.turnCount);
    NumberStep(rows, "updated_at_ms", INT64_MIN, INT64_MAX, start.updatedAtMs);
  }

  /** A payload is read as a summary if and only if no number in it is bad and it
      names a session, and then the summary is what the last row of each name says. */
  lemma ParsedSummaryIs(payload: Bytes)
    ensures var rows, r := RowsOf(payload), ParsedSummary(payload);
            && (r.None? <==> (exists row :: row in rows && BadSummaryRow(row)) || Text(rows, "session_id", []) == [])
            && (r.Some? ==> SummaryIs(r.value, rows, NO_SUMMARY))
  {
    hide RowsOf, BadSummaryRow, Text, Number, SummaryFrom;
    SummaryFromIs(NO_SUMMARY, RowsOf(payload));
  }

  // ---- legacy records ----

  ghost predicate BadLegacyRow(row: Row) {
    |row| == 4 && row[0] == "turn" && ParseInteger(row[2], INT64_MIN, INT64_MAX).None?
  }

  /** The turns of the rows that hold one, in order. */
  function TurnsOfRows(rows: seq<Row>): seq<ConversationTurn> {
    if rows == [] then []
    else
      var row := rows[0];
      (if |row| == 4 && row[0] == "turn" && ParseInteger(row[2], INT64_MIN, INT64_MAX).Some?
       then [ConversationTurn(Unescaped(row[1], false), Unescaped(row[3], false),
                              ParseInteger(row[2], INT64_MIN, INT64_MAX).value)]
       else []) + TurnsOfRows(rows[1..])
  }

  ghost predicate LegacyIs(s: ConversationSession, rows: seq<Row>, start: ConversationSession) {
    && s.tenant == Text(rows, "tenant", start.tenant) && s.appId == Text(rows, "app_id", start.appId)
    && s.sessionId == Text(rows, "session_id", start.sessionId) && s.model == Text(rows, "model", start.model)
    && s.turns == start.turns + TurnsOfRows(rows)
  }

  lemma {:induction false} LegacyFromIs(start: ConversationSession, rows: seq<Row>)
    ensures LegacyFrom(start, rows).None? <==> exists row :: row in rows && BadLegacyRow(row)
    ensures LegacyFrom(start, rows).Some? ==> LegacyIs(LegacyFrom(start, rows).value, rows, start)
    decreases |rows|
  {
    if rows != [] {
      hide ParseInteger, Unescaped, Named;
      LegacyNames();
      assert rows == [rows[0]] + rows[1..];
      var next := LegacyField(start, rows[0]);
      if next.Some? {
        LegacyFromIs(next.value, rows[1..]);
        LegacyStep(start, rows, next.value);
      } else {
        assert BadLegacyRow(rows[0]) && rows[0] in rows;
      }
    } else {
      assert Named(rows, "tenant") == Named(rows, "app_id") == Named(rows, "session_id") == Named(rows, "model")
          == None;
    }
  }

  lemma LegacyNames()
    ensures |"turn"| == 4
  {
    SummaryNames();
  }

  lemma LegacyStep(start: ConversationSession, rows: seq<Row>, next: ConversationSession)
    requires rows != [] && LegacyField(start, rows[0]) == Some(next)
    ensures forall s :: LegacyIs(s, rows[1..], next) ==> LegacyIs(s, rows, start)
  {
    hide ParseInteger, Unescaped, Named, Text;
    SummaryNames();
    LegacyNames();
    TextStep(rows, "tenant", start.tenant);
    TextStep(rows, "app_id", start.appId);
    TextStep(rows, "session_id", start.sessionId);
    TextStep(rows, "model", start.model);
    assert start.turns + TurnsOfRows(rows) == next.turns + TurnsOfRows(rows[1..]);
  }

  /** A payload is read as a whole session if and only if no time in it is bad and it
      names a session, and then the turns are those of all turn rows, in order. */
  lemma ParsedLegacyIs(payload: Bytes)
    ensures var rows, r := RowsOf(payload), ParsedLegacy(payload);
            && (r.None? <==> (exists row :: row in rows && BadLegacyRow(row)) || Text(rows, "session_id", []) == [])
            && (r.Some? ==> LegacyIs(r.value, rows, NO_SESSION))
  {
    hide RowsOf, BadLegacyRow, Text, LegacyFrom, TurnsOfRows;
    LegacyFromIs(NO_SESSION, RowsOf(payload));
  }
}
