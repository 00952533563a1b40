/** The keys of the typed stores. Every key is a list of parts joined by a
    separator; the scans work on prefixes of the joined text. */
module Keyspace {
  import opened ByteOrder
  import opened Codec

  function AppendKeyPart(key: Bytes, part: Bytes): Bytes {
    key + (":" + EscapedKey(part))
  }

  function ConversationPrefix(tenant: Bytes, appId: Bytes): Bytes {
    Joined(["llm", "conversation", tenant, appId])
  }

  /** Also the key of the legacy record. */
  function SessionKey(tenant: Bytes, appId: Bytes, sessionId: Bytes): Bytes {
    AppendKeyPart(ConversationPrefix(tenant, appId), sessionId)
  }

  function MetaKey(tenant: Bytes, appId: Bytes, sessionId: Bytes): Bytes {
    AppendKeyPart(SessionKey(tenant, appId, sessionId), "meta")
  }

  function TurnPrefix(tenant: Bytes, appId: Bytes, sessionId: Bytes): Bytes {
    AppendKeyPart(SessionKey(tenant, appId, sessionId), "turn")
  }

  function TurnKey(tenant: Bytes, appId: Bytes, sessionId: Bytes, sequence: nat): Bytes {
    AppendKeyPart(TurnPrefix(tenant, appId, sessionId), FormatSequence(sequence))
  }

  function PromptCachePrefix(tenant: Bytes, appId: Bytes, model: Bytes): Bytes {
    var key := Joined(["llm", "prompt-cache", tenant, appId]);
    if model == [] then key else AppendKeyPart(key, model)
  }

  function PromptCacheKey(tenant: Bytes, appId: Bytes, model: Bytes, promptHash: Bytes): Bytes {
    AppendKeyPart(PromptCachePrefix(tenant, appId, model), promptHash)
  }

  function RetrievalPrefix(tenant: Bytes, knowledgeBase: Bytes, documentId: Bytes): Bytes {
    var key := Joined(["llm", "retrieval", tenant, knowledgeBase]);
    if documentId == [] then key else AppendKeyPart(key, documentId)
  }

  function RetrievalKey(tenant: Bytes, knowledgeBase: Bytes, documentId: Bytes, chunkId: Bytes): Bytes {
    AppendKeyPart(RetrievalPrefix(tenant, knowledgeBase, documentId), chunkId)
  }

  function RuntimeConfigKey(tenant: Bytes, appId: Bytes, profile: Bytes): Bytes {
    AppendKeyPart(Joined(["llm", "runtime-config", tenant, appId]), profile)
  }

  // ---- every key any typed store can write ----

  datatype Key =
    | Session(tenant: Bytes, appId: Bytes, sessionId: Bytes)
    | Meta(tenant: Bytes, appId: Bytes, sessionId: Bytes)
    | Turn(tenant: Bytes, appId: Bytes, sessionId: Bytes, sequence: nat)
    | PromptCache(tenant: Bytes, appId: Bytes, model: Bytes, promptHash: Bytes)
    | Retrieval(tenant: Bytes, knowledgeBase: Bytes, documentId: Bytes, chunkId: Bytes)
    | RuntimeConfig(tenant: Bytes, appId: Bytes, profile: Bytes)

  function Text(k: Key): Bytes {
    match k
    case Session(t, a, s) => SessionKey(t, a, s)
    case Meta(t, a, s) => MetaKey(t, a, s)
    case Turn(t, a, s, n) => TurnKey(t, a, s, n)
    case PromptCache(t, a, m, h) => PromptCacheKey(t, a, m, h)
    case Retrieval(t, b, d, c) => RetrievalKey(t, b, d, c)
    case RuntimeConfig(t, a, p) => RuntimeConfigKey(t, a, p)
  }

  /** Sequence numbers are 32 bits wide. */
  predicate InRange(k: Key) {
    k.Turn? ==> k.sequence <= UINT32_MAX
  }

  function SessionParts(t: Bytes, a: Bytes, s: Bytes): seq<Bytes> {
    ["llm", "conversation", t, a, s]
  }

  function Parts(k: Key): (parts: seq<Bytes>)
    ensures |parts| >= 5
  {
    match k
    case Session(t, a, s) => SessionParts(t, a, s)
    case Meta(t, a, s) => SessionParts(t, a, s) + ["meta"]
    case Turn(t, a, s, n) => SessionParts(t, a, s) + ["turn", FormatSequence(n)]
    case PromptCache(t, a, m, h) => ["llm", "prompt-cache", t, a] + (if m == [] then [h] else [m, h])
    case Retrieval(t, b, d, c) => ["llm", "retrieval", t, b] + (if d == [] then [c] else [d, c])
    case RuntimeConfig(t, a, p) => ["llm", "runtime-config", t, a, p]
  }

  lemma Append(parts: seq<Bytes>, part: Bytes)
    requires parts != []
    ensures AppendKeyPart(Joined(parts), part) == Joined(parts + [part])
  {
    hide Joined, EscapedKey;
    JoinedSnoc(parts, part);
  }

  lemma SessionIsJoined(t: Bytes, a: Bytes, s: Bytes)
    ensures SessionKey(t, a, s) == Joined(SessionParts(t, a, s))
  {
    hide Joined, AppendKeyPart;
    var p := ["llm", "conversation", t, a];
    Append(p, s);
    assert p + [s] == SessionParts(t, a, s);
  }

  lemma TurnIsJoined(t: Bytes, a: Bytes, s: Bytes, n: nat)
    ensures TurnPrefix(t, a, s) == Joined(SessionParts(t, a, s) + ["turn"])
    ensures TurnKey(t, a, s, n) == Joined(Parts(Turn(t, a, s, n)))
  {
    hide Joined, AppendKeyPart, SessionKey, SessionParts, FormatSequence;
    SessionIsJoined(t, a, s);
    SessionPartsLong(t, a, s);
    var p := SessionParts(t, a, s);
    Append(p, "turn");
    Append(p + ["turn"], FormatSequence(n));
    assert p + ["turn"] + [FormatSequence(n)] == p + ["turn", FormatSequence(n)];
  }

  lemma SessionPartsLong(t: Bytes, a: Bytes, s: Bytes)
    ensures |SessionParts(t, a, s)| == 5
  {
  }

  lemma MetaIsJoined(t: Bytes, a: Bytes, s: Bytes)
    ensures MetaKey(t, a, s) == Joined(Parts(Meta(t, a, s)))
  {
    hide Joined, AppendKeyPart, SessionKey, SessionParts;
    SessionIsJoined(t, a, s);
    SessionPartsLong(t, a, s);
    Append(SessionParts(t, a, s), "meta");
  }

  /** A four-part prefix, an optional part and a last part. */
  lemma OptionalIsJoined(p: seq<Bytes>, middle: Bytes, last: Bytes)
    requires p != []
    ensures AppendKeyPart(if middle == [] then Joined(p) else AppendKeyPart(Joined(p), middle), last)
            == Joined(p + (if middle == [] then [last] else [middle, last]))
  {
    hide Joined, AppendKeyPart;
    if middle == [] {
      Append(p, last);
    } else {
      Append(p, middle);
      Append(p + [middle], last);
      assert p + [middle] + [last] == p + [middle, last];
    }
  }

  /** Every key is the join of its parts. */
  lemma TextIsJoined(k: Key)
    ensures Text(k) == Joined(Parts(k))
  {
    hide Joined, AppendKeyPart, SessionKey, MetaKey, TurnKey;
    match k
    case Session(t, a, s) => SessionIsJoined(t, a, s);
    case Meta(t, a, s) => MetaIsJoined(t, a, s);
    case Turn(t, a, s, n) => TurnIsJoined(t, a, s, n);
    case PromptCache(t, a, m, h) => OptionalIsJoined(["llm", "prompt-cache", t, a], m, h);
    case Retrieval(t, b, d, c) => OptionalIsJoined(["llm", "retrieval", t, b], d, c);
    case RuntimeConfig(t, a, p) =>
      Append(["llm", "runtime-config", t, a], p);
      assert ["llm", "runtime-config", t, a] + [p] == ["llm", "runtime-config", t, a, p];
  }

  lemma PartsInjective(j: Key, k: Key)
    requires Parts(j) == Parts(k) && InRange(j) && InRange(k)
    ensures j == k
  {
    hide FormatSequence;
    var p, q := Parts(j), Parts(k);
    assert p[1] == q[1] && p[2] == q[2] && p[3] == q[3] && p[4] == q[4];
    assert |p| > 5 ==> p[5] == q[5];
    assert "conversation"[0] == 'c' && "prompt-cache"[0] == 'p';
    assert "retrieval"[1] == 'e' && "runtime-config"[1] == 'u';
    if j.Turn? && k.Turn? {
      assert p[6] == q[6];
      SequenceOrder(j.sequence, k.sequence);
    }
  }

  /** Different records never share a key, whatever characters the identifiers contain. */
  lemma KeyInjective(j: Key, k: Key)
    requires InRange(j) && InRange(k) && Text(j) == Text(k)
    ensures j == k
  {
    hide Text, Parts, Joined;
    TextIsJoined(j);
    TextIsJoined(k);
    JoinedInjective(Parts(j), Parts(k));
    PartsInjective(j, k);
  }

  /** A part without special characters is written as it is. */
  lemma {:induction false} PlainPart(s: Bytes)
    requires forall i :: 0 <= i < |s| ==> s[i] !in {'\\', '\n', '\t', ':'}
    ensures EscapedKey(s) == s
  {
    if s != [] {
      PlainPart(s[1..]);
      assert s == [s[0]] + s[1..];
    }
  }

  /** Among all keys of the typed stores, a scan by the turn prefix of a session
      matches exactly that session's turns, although the prefix does not end in
      a separator. */
  lemma TurnScanIsExact(t: Bytes, a: Bytes, s: Bytes, k: Key)
    ensures TurnPrefix(t, a, s) <= Text(k) <==> k.Turn? && k.tenant == t && k.appId == a && k.sessionId == s
  {
    hide Text, Joined, TurnPrefix, FormatSequence, EscapedKey;
    var p := SessionParts(t, a, s);
    TextIsJoined(k);
    TurnIsJoined(t, a, s, 0);
    JoinedSnoc(p, "turn");
    PlainPart("turn");
    Associate(Joined(p), ":", "turn");
    if TurnPrefix(t, a, s) <= Text(k) {
      LeadingParts(p, "turn", Parts(k));
      TurnFollows(t, a, s, k);
    }
    if k == Turn(t, a, s, if k.Turn? then k.sequence else 0) {
      JoinedConcat(p + ["turn"], [FormatSequence(k.sequence)]);
      assert p + ["turn"] + [FormatSequence(k.sequence)] == Parts(k);
    }
  }

  lemma TurnFollows(t: Bytes, a: Bytes, s: Bytes, k: Key)
    requires |Parts(k)| > 5 && Parts(k)[..5] == SessionParts(t, a, s) && "turn" <= Joined(Parts(k)[5..])
    ensures k.Turn? && k.tenant == t && k.appId == a && k.sessionId == s
  {
    hide FormatSequence, EscapedKey;
    var p, q := Parts(k), SessionParts(t, a, s);
    assert p[..5][1] == q[1] && p[..5][2] == q[2] && p[..5][3] == q[3] && p[..5][4] == q[4];
    assert "conversation"[0] == 'c' && "prompt-cache"[0] == 'p';
    assert "retrieval"[0] == 'r' && "runtime-config"[0] == 'r';
    var tail := p[5..];
    assert !k.Meta? || tail == ["meta"];
    MetaIsNoTurn();
  }

  lemma MetaIsNoTurn()
    ensures !("turn" <= Joined(["meta"]))
  {
    hide EscapedKey;
    PlainPart("meta");
    assert "turn"[0] != "meta"[0];
  }

  /** Turn keys sort by sequence number. */
  lemma TurnOrder(t: Bytes, a: Bytes, s: Bytes, m: nat, n: nat)
    requires m <= UINT32_MAX && n <= UINT32_MAX
    ensures Lt(TurnKey(t, a, s, m), TurnKey(t, a, s, n)) <==> m < n
  {
    hide Lt, EscapedKey, FormatSequence, TurnPrefix;
    SequenceOrder(m, n);
    SequenceOrder(n, m);
    PlainPart(FormatSequence(m));
    PlainPart(FormatSequence(n));
    LtCommonPrefix(":", FormatSequence(m), FormatSequence(n));
    LtCommonPrefix(TurnPrefix(t, a, s), ":" + FormatSequence(m), ":" + FormatSequence(n));
  }

  const RESERVED_PREFIX: Bytes := "__mokv__:"

  predicate IsReserved(key: Bytes) {
    RESERVED_PREFIX <= key
  }

  /** No typed key is reserved or empty. */
  lemma TextIsOrdinary(k: Key)
    ensures !IsReserved(Text(k)) && Text(k) != []
  {
    hide Text;
    StartsPlain(k);
    assert RESERVED_PREFIX[0] == '_';
  }

  lemma StartsPlain(k: Key)
    ensures Text(k) != [] && Text(k)[0] != '_'
  {
    hide Text, Joined, Parts, EscapedKey;
    TextIsJoined(k);
    FirstPart(Parts(k), []);
    StartsWithLlm(k);
    PlainPart("llm");
    assert Text(k)[0] == "llm"[0] == 'l';
  }

  lemma StartsWithLlm(k: Key)
    ensures Parts(k)[0] == "llm"
  {
  }
}
