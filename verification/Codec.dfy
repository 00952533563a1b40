/** The text codec: escapes, key parts, splitting and decimal numbers. */
module Codec {
  import opened ByteOrder
  import opened Runs

  // ---- escapes ----

  /** One character of a field. */
  function EscapeChar(ch: char): Bytes {
    if ch == '\\' then "\\\\" else if ch == '\n' then "\\n" else if ch == '\t' then "\\t" else [ch]
  }

  /** One character of a key part: the separator is escaped too. */
  function EscapeKeyChar(ch: char): Bytes {
    if ch == ':' then "\\:" else EscapeChar(ch)
  }

  function Escaped(raw: Bytes): Bytes {
    if raw == [] then [] else EscapeChar(raw[0]) + Escaped(raw[1..])
  }

  function EscapedKey(raw: Bytes): Bytes {
    if raw == [] then [] else EscapeKeyChar(raw[0]) + EscapedKey(raw[1..])
  }

  /** What follows an escape character. */
  function UnescapeChar(ch: char): char {
    if ch == 'n' then '\n' else if ch == 't' then '\t' else ch
  }

  /** Decoding from a given state of the escaped flag; a lone escape at the end
      stands for itself. */
  function Unescaped(raw: Bytes, escaped: bool): Bytes {
    if raw == [] then (if escaped then "\\" else [])
    else if escaped then [UnescapeChar(raw[0])] + Unescaped(raw[1..], false)
    else if raw[0] == '\\' then Unescaped(raw[1..], true)
    else [raw[0]] + Unescaped(raw[1..], false)
  }

  /** Unescape inverts Escape, whatever follows. */
  lemma {:induction false} UnescapeEscaped(raw: Bytes)
    ensures Unescaped(Escaped(raw), false) == raw
  {
    if raw != [] {
      UnescapeEscaped(raw[1..]);
      UnescapeOne(EscapeChar(raw[0]), Escaped(raw[1..]), raw[0]);
    }
  }

  /** Unescape also inverts EscapeKeyPart. */
  lemma {:induction false} UnescapeEscapedKey(raw: Bytes)
    ensures Unescaped(EscapedKey(raw), false) == raw
  {
    if raw != [] {
      UnescapeEscapedKey(raw[1..]);
      UnescapeOne(EscapeKeyChar(raw[0]), EscapedKey(raw[1..]), raw[0]);
    }
  }

  lemma UnescapeOne(code: Bytes, rest: Bytes, ch: char)
    requires code == EscapeChar(ch) || code == EscapeKeyChar(ch)
    ensures Unescaped(code + rest, false) == [ch] + Unescaped(rest, false)
  {
    assert (code + rest)[1..] == code[1..] + rest;
    if |code| == 2 {
      assert (code[1..] + rest)[1..] == rest;
      assert Unescaped(code + rest, false) == Unescaped(code[1..] + rest, true);
    } else {
      assert code[1..] + rest == rest;
    }
  }

  lemma EscapedNothing(raw: Bytes)
    requires |raw| == 0
    ensures Escaped(raw) == [] && EscapedKey(raw) == []
  {
  }

  lemma EscapedStep(done: Bytes, raw: Bytes, i: nat)
    requires i < |raw|
    ensures done + Escaped(raw[i..]) == (done + EscapeChar(raw[i])) + Escaped(raw[i + 1..])
  {
    hide EscapeChar;
    assert raw[i..][1..] == raw[i + 1..];
  }

  lemma EscapedKeyStep(done: Bytes, raw: Bytes, i: nat)
    requires i < |raw|
    ensures done + EscapedKey(raw[i..]) == (done + EscapeKeyChar(raw[i])) + EscapedKey(raw[i + 1..])
  {
    hide EscapeKeyChar;
    assert raw[i..][1..] == raw[i + 1..];
  }

  method Escape(raw: Bytes) returns (encoded: Bytes)
    ensures encoded == Escaped(raw)
  {
    hide Escaped, EscapeChar;
    assert raw[0..] == raw;
    encoded := [];
    for i := 0 to |raw|
      invariant encoded + Escaped(raw[i..]) == Escaped(raw)
    {
      EscapedStep(encoded, raw, i);
      encoded := encoded + EscapeChar(raw[i]);
    }
    EscapedNothing(raw[|raw|..]);
  }

  method EscapeKeyPart(raw: Bytes) returns (encoded: Bytes)
    ensures encoded == EscapedKey(raw)
  {
    hide EscapedKey, EscapeKeyChar;
    assert raw[0..] == raw;
    encoded := [];
    for i := 0 to |raw|
      invariant encoded + EscapedKey(raw[i..]) == EscapedKey(raw)
    {
      EscapedKeyStep(encoded, raw, i);
      encoded := encoded + EscapeKeyChar(raw[i]);
    }
    EscapedNothing(raw[|raw|..]);
  }

  method Unescape(raw: Bytes) returns (decoded: Bytes)
    ensures decoded == Unescaped(raw, false)
  {
    decoded := [];
    var escaped := false;
    for i := 0 to |raw|
      invariant decoded + Unescaped(raw[i..], escaped) == Unescaped(raw, false)
    {
      assert raw[i..][1..] == raw[i + 1..];
      var ch := raw[i];
      if !escaped {
        if ch == '\\' {
          escaped := true;
        } else {
          decoded := decoded + [ch];
        }
      } else {
        decoded := decoded + [UnescapeChar(ch)];
        escaped := false;
      }
    }
    if escaped {
      decoded := decoded + ['\\'];
    }
  }

  /** No line break and no tab survives an escape. */
  lemma {:induction false} EscapedIsPlain(raw: Bytes)
    ensures '\n' !in Escaped(raw) && '\t' !in Escaped(raw)
  {
    if raw != [] {
      EscapedIsPlain(raw[1..]);
    }
  }

  /** The codes of single characters: these equations leave no other functions. */
  lemma EscapeLaw(rest: Bytes)
    ensures Escaped("\\" + rest) == "\\\\" + Escaped(rest) && EscapedKey("\\" + rest) == "\\\\" + EscapedKey(rest)
    ensures Escaped("\n" + rest) == "\\n" + Escaped(rest) && EscapedKey("\n" + rest) == "\\n" + EscapedKey(rest)
    ensures Escaped("\t" + rest) == "\\t" + Escaped(rest) && EscapedKey("\t" + rest) == "\\t" + EscapedKey(rest)
    ensures Escaped(":" + rest) == ":" + Escaped(rest) && EscapedKey(":" + rest) == "\\:" + EscapedKey(rest)
    ensures forall ch :: ch !in "\\\n\t:" ==>
              Escaped([ch] + rest) == [ch] + Escaped(rest) && EscapedKey([ch] + rest) == [ch] + EscapedKey(rest)
  {
    hide Escaped, EscapedKey;
    EscapeStep('\\', rest);
    EscapeStep('\n', rest);
    EscapeStep('\t', rest);
    EscapeStep(':', rest);
    forall ch | ch !in "\\\n\t:"
      ensures Escaped([ch] + rest) == [ch] + Escaped(rest) && EscapedKey([ch] + rest) == [ch] + EscapedKey(rest)
    {
      EscapeStep(ch, rest);
      assert "\\\n\t:"[0] == '\\' && "\\\n\t:"[1] == '\n' && "\\\n\t:"[2] == '\t' && "\\\n\t:"[3] == ':';
    }
  }

  lemma EscapeStep(ch: char, rest: Bytes)
    ensures Escaped([ch] + rest) == EscapeChar(ch) + Escaped(rest)
    ensures EscapedKey([ch] + rest) == EscapeKeyChar(ch) + EscapedKey(rest)
  {
    assert ([ch] + rest)[1..] == rest;
  }

  /** Unescape on any text: an unknown escape stands for its character, and a lone
      escape at the end for itself. */
  lemma UnescapeLaw(ch: char, rest: Bytes)
    ensures Unescaped([], false) == [] && Unescaped("\\", false) == "\\"
    ensures ch != '\\' ==> Unescaped([ch] + rest, false) == [ch] + Unescaped(rest, false)
    ensures Unescaped(['\\', ch] + rest, false)
         == [if ch == 'n' then '\n' else if ch == 't' then '\t' else ch] + Unescaped(rest, false)
  {
    assert ([ch] + rest)[1..] == rest && (['\\', ch] + rest)[1..] == [ch] + rest;
    assert "\\"[1..] == [];
  }

  // ---- splitting ----

  /** Where a character first occurs, or the length. */
  function IndexOf(s: Bytes, ch: char): (i: nat)
    ensures i <= |s| && (i < |s| ==> s[i] == ch) && forall j :: 0 <= j < i ==> s[j] != ch
  {
    if s == [] || s[0] == ch then 0 else 1 + IndexOf(s[1..], ch)
  }

  lemma IndexOfConcat(a: Bytes, ch: char, b: Bytes)
    requires ch !in a
    ensures IndexOf(a + [ch] + b, ch) == |a|
  {
    var s := a + [ch] + b;
    var i := IndexOf(s, ch);
    assert s[|a|] == ch;
    assert forall j :: 0 <= j < |a| ==> s[j] == a[j];
  }

  /** codec::Split: tokens between delimiters, at least one. */
  function Tokens(raw: Bytes, delimiter: char): (ts: seq<Bytes>)
    ensures ts != []
    decreases |raw|
  {
    var i := IndexOf(raw, delimiter);
    if i == |raw| then [raw] else [raw[..i]] + Tokens(raw[i + 1..], delimiter)
  }

  /** Tokens with the delimiter between them. */
  function Rejoined(tokens: seq<Bytes>, delimiter: char): Bytes
    requires tokens != []
  {
    if |tokens| == 1 then tokens[0] else tokens[0] + [delimiter] + Rejoined(tokens[1..], delimiter)
  }

  /** Splitting loses nothing, and no token holds the delimiter. */
  lemma {:induction false} TokensRejoin(raw: Bytes, delimiter: char)
    ensures Rejoined(Tokens(raw, delimiter), delimiter) == raw
    ensures forall t :: t in Tokens(raw, delimiter) ==> delimiter !in t
    decreases |raw|
  {
    hide IndexOf;
    var i := IndexOf(raw, delimiter);
    if i < |raw| {
      var rest := Tokens(raw[i + 1..], delimiter);
      TokensRejoin(raw[i + 1..], delimiter);
      assert ([raw[..i]] + rest)[1..] == rest;
      assert raw == raw[..i] + [delimiter] + raw[i + 1..];
    }
  }

  method Split(raw: Bytes, delimiter: char) returns (tokens: seq<Bytes>)
    ensures tokens == Tokens(raw, delimiter)
  {
    hide IndexOf;
    tokens := [];
    var start := 0;
    assert raw[0..] == raw;
    while start <= |raw|
      invariant 0 <= start <= |raw|
      invariant tokens + Tokens(raw[start..], delimiter) == Tokens(raw, delimiter)
      decreases |raw| - start
    {
      var rest := raw[start..];
      var pos := IndexOf(rest, delimiter);
      if pos == |rest| {
        tokens := tokens + [rest];
        break;
      }
      assert rest[pos + 1..] == raw[start + pos + 1..];
      assert Tokens(rest, delimiter) == [rest[..pos]] + Tokens(rest[pos + 1..], delimiter);
      assert tokens + Tokens(rest, delimiter) == (tokens + [rest[..pos]]) + Tokens(rest[pos + 1..], delimiter);
      tokens := tokens + [rest[..pos]];
      start := start + pos + 1;
    }
  }

  /** std::getline until the end of the stream: no last line after a final break. */
  function Lines(s: Bytes): seq<Bytes>
    decreases |s|
  {
    if s == [] then []
    else
      var i := IndexOf(s, '\n');
      if i == |s| then [s] else [s[..i]] + Lines(s[i + 1..])
  }

  /** Lines with a break behind each. */
  function Terminated(lines: seq<Bytes>): Bytes {
    if lines == [] then [] else lines[0] + "\n" + Terminated(lines[1..])
  }

  /** A text with a break at its end. */
  function Ended(s: Bytes): Bytes {
    if s == [] || s[|s| - 1] == '\n' then s else s + "\n"
  }

  lemma EndedStep(line: Bytes, tail: Bytes)
    ensures Ended(line + "\n" + tail) == line + "\n" + Ended(tail)
  {
    var s := line + "\n" + tail;
    if tail == [] {
      assert s[|s| - 1] == '\n' && s == line + "\n";
    } else {
      assert s[|s| - 1] == tail[|tail| - 1];
      assert s + "\n" == line + "\n" + (tail + "\n");
    }
  }

  /** The lines of a text are the text, up to a break at its end. */
  lemma {:induction false} LinesTerminated(s: Bytes)
    ensures Terminated(Lines(s)) == Ended(s)
    ensures forall line :: line in Lines(s) ==> '\n' !in line
    decreases |s|
  {
    if s != [] {
      hide IndexOf, Ended;
      var i := IndexOf(s, '\n');
      if i < |s| {
        var line, tail := s[..i], s[i + 1..];
        var rest := Lines(tail);
        LinesTerminated(tail);
        assert s == line + "\n" + tail;
        EndedStep(line, tail);
        assert ([line] + rest)[1..] == rest;
      } else {
        WholeLine(s);
      }
    }
  }

  lemma WholeLine(s: Bytes)
    requires s != [] && '\n' !in s
    ensures Terminated([s]) == Ended(s)
  {
    assert [s][1..] == [];
    assert s[|s| - 1] in s;
  }

  lemma LineFirst(line: Bytes, rest: Bytes)
    requires '\n' !in line
    ensures Lines(line + "\n" + rest) == [line] + Lines(rest)
  {
    var s := line + "\n" + rest;
    IndexOfConcat(line, '\n', rest);
    assert s[..|line|] == line && s[|line| + 1..] == rest;
  }

  // ---- key parts ----

  /** JoinKeyParts; further parts are appended behind a separator. */
  function Joined(parts: seq<Bytes>): Bytes
    requires parts != []
  {
    if |parts| == 1 then EscapedKey(parts[0]) else EscapedKey(parts[0]) + ":" + Joined(parts[1..])
  }

  method JoinKeyParts(parts: seq<Bytes>) returns (key: Bytes)
    ensures parts == [] ==> key == []
    ensures parts != [] ==> key == Joined(parts)
  {
    key := [];
    var first := true;
    for i := 0 to |parts|
      invariant first <==> i == 0
      invariant i == 0 ==> key == []
      invariant i > 0 ==> key == Joined(parts[..i])
    {
      if !first {
        key := key + ":";
        JoinedSnoc(parts[..i], parts[i]);
      }
      assert parts[..i + 1] == parts[..i] + [parts[i]];
      var part := EscapeKeyPart(parts[i]);
      key := key + part;
      first := false;
    }
    assert parts[..|parts|] == parts;
  }

  lemma JoinedSnoc(parts: seq<Bytes>, part: Bytes)
    requires parts != []
    ensures Joined(parts + [part]) == Joined(parts) + ":" + EscapedKey(part)
  {
    JoinedConcat(parts, [part]);
  }

  /** No escaped part starts with the separator. */
  lemma NoLeadingSeparator(a: Bytes, x: Bytes)
    requires a != []
    ensures EscapedKey(a) + x != [] && (EscapedKey(a) + x)[0] != ':'
  {
  }

  /** The codes of two characters that agree where both are read are the same. */
  lemma SameCode(a: char, x: Bytes, b: char, y: Bytes)
    requires EscapeKeyChar(a) + x <= EscapeKeyChar(b) + y
    ensures a == b && x <= y
  {
    var ca, cb := EscapeKeyChar(a), EscapeKeyChar(b);
    var s, t := ca + x, cb + y;
    assert s[0] == t[0];
    assert |ca| == 2 ==> s[1] == t[1];
    assert a == b;
    assert s[|ca|..] == x && t[|ca|..] == y;
    assert s[|ca|..] <= t[|ca|..];
  }

  /** The escape is a prefix code in which the separator never starts a word: a
      part followed by a separator can be read off in one way only. */
  lemma {:induction false} PartIsReadOff(a: Bytes, x: Bytes, b: Bytes, y: Bytes)
    requires EscapedKey(a) + x <= EscapedKey(b) + y
    requires x != [] && x[0] == ':' && (y == [] || y[0] == ':')
    ensures a == b && x <= y
  {
    hide EscapedKey;
    if a == [] {
      SeparatorFirst(x, b, y);
    } else if b == [] {
      PartFirst(a, x, y);
    } else {
      Unroll(a, x);
      Unroll(b, y);
      SameCode(a[0], EscapedKey(a[1..]) + x, b[0], EscapedKey(b[1..]) + y);
      PartIsReadOff(a[1..], x, b[1..], y);
      assert a == [a[0]] + a[1..] && b == [b[0]] + b[1..];
    }
  }

  lemma Unroll(a: Bytes, x: Bytes)
    requires a != []
    ensures EscapedKey(a) + x == EscapeKeyChar(a[0]) + (EscapedKey(a[1..]) + x)
  {
  }

  lemma SeparatorFirst(x: Bytes, b: Bytes, y: Bytes)
    requires EscapedKey([]) + x <= EscapedKey(b) + y && x != [] && x[0] == ':'
    ensures b == [] && x <= y
  {
    assert EscapedKey([]) + x == x && x[0] == (EscapedKey(b) + y)[0];
    if b != [] { NoLeadingSeparator(b, y); }
    assert EscapedKey([]) + y == y;
  }

  lemma PartFirst(a: Bytes, x: Bytes, y: Bytes)
    requires a != [] && (y == [] || y[0] == ':')
    ensures !(EscapedKey(a) + x <= EscapedKey([]) + y)
  {
    NoLeadingSeparator(a, x);
    assert EscapedKey([]) + y == y;
  }

  /** What follows the first part. */
  function AfterFirst(parts: seq<Bytes>): Bytes
    requires parts != []
  {
    if |parts| == 1 then [] else ":" + Joined(parts[1..])
  }

  lemma FirstPart(parts: seq<Bytes>, rest: Bytes)
    requires parts != []
    ensures Joined(parts) + rest == EscapedKey(parts[0]) + (AfterFirst(parts) + rest)
    ensures Joined(parts) == EscapedKey(parts[0]) + AfterFirst(parts)
    ensures |parts| > 1 ==> AfterFirst(parts) + rest == ":" + (Joined(parts[1..]) + rest)
  {
    hide Joined, EscapedKey;
    JoinedFirst(parts);
    Associate(EscapedKey(parts[0]), AfterFirst(parts), rest);
    if |parts| > 1 {
      Associate(":", Joined(parts[1..]), rest);
    }
  }

  lemma JoinedFirst(parts: seq<Bytes>)
    requires parts != []
    ensures Joined(parts) == EscapedKey(parts[0]) + AfterFirst(parts)
  {
    hide EscapedKey;
    if |parts| > 1 {
      Associate(EscapedKey(parts[0]), ":", Joined(parts[1..]));
    }
  }

  lemma Associate(a: Bytes, b: Bytes, c: Bytes)
    ensures (a + b) + c == a + (b + c)
  {
  }

  lemma DropFirst(x: Bytes, y: Bytes)
    requires ":" + x <= y
    ensures y != [] && y[0] == ':' && x <= y[1..]
  {
    assert forall i :: 0 <= i < |x| ==> (":" + x)[i + 1] == x[i];
  }

  /** Key parts before a separator are read off one by one: a prefix that ends
      in a separator fixes all parts before it. */
  lemma {:induction false} LeadingParts(q: seq<Bytes>, w: Bytes, k: seq<Bytes>)
    requires q != [] && k != [] && Joined(q) + (":" + w) <= Joined(k)
    ensures |q| < |k| && k[..|q|] == q && w <= Joined(k[|q|..])
  {
    hide Joined, EscapedKey;
    var x, y := AfterFirst(q) + (":" + w), AfterFirst(k);
    FirstPart(q, ":" + w);
    FirstPart(k, []);
    PartIsReadOff(q[0], x, k[0], y);
    if |q| == 1 {
      assert x == ":" + w;
      DropFirst(w, y);
    } else {
      DropFirst(Joined(q[1..]) + (":" + w), y);
    }
    assert y[1..] == Joined(k[1..]);
    if |q| > 1 {
      LeadingParts(q[1..], w, k[1..]);
      assert k[1..][|q| - 1..] == k[|q|..];
      assert k[..|q|] == [k[0]] + k[1..][..|q| - 1];
    }
  }

  lemma {:induction false} JoinedConcat(q: seq<Bytes>, r: seq<Bytes>)
    requires q != [] && r != []
    ensures Joined(q + r) == Joined(q) + ":" + Joined(r)
  {
    hide EscapedKey;
    assert (q + r)[1..] == q[1..] + r;
    if |q| == 1 {
      assert q[1..] + r == r;
    } else {
      JoinedConcat(q[1..], r);
      assert Joined(q) + ":" + Joined(r) == EscapedKey(q[0]) + ":" + (Joined(q[1..]) + ":" + Joined(r));
    }
  }

  /** Keys are uniquely decodable: joining is injective on non-empty lists of
      parts, whatever characters the parts contain. */
  lemma JoinedInjective(a: seq<Bytes>, b: seq<Bytes>)
    requires a != [] && b != [] && Joined(a) == Joined(b)
    ensures a == b
  {
    JoinedSnoc(a, []);
    JoinedSnoc(b, []);
    hide Joined;
    assert Joined(a) + (":" + []) <= Joined(b + [[]]);
    assert Joined(b) + (":" + []) <= Joined(a + [[]]);
    LeadingParts(a, [], b + [[]]);
    LeadingParts(b, [], a + [[]]);
    assert (b + [[]])[..|a|] == b[..|a|];
  }

  // ---- decimal numbers ----

  function Digit(d: nat): (c: char)
    requires d < 10
    ensures '0' <= c <= '9' && c as nat - '0' as nat == d
  {
    ('0' as nat + d) as char
  }

  predicate IsDigit(c: char) {
    '0' <= c <= '9'
  }

  predicate AllDigits(s: Bytes) {
    forall i :: 0 <= i < |s| ==> IsDigit(s[i])
  }

  function Decimal(n: nat): (s: Bytes)
    ensures s != [] && AllDigits(s)
  {
    if n < 10 then [Digit(n)] else Decimal(n / 10) + [Digit(n % 10)]
  }

  function DigitsValue(s: Bytes): nat
    requires AllDigits(s)
  {
    if s == [] then 0 else 10 * DigitsValue(s[..|s| - 1]) + (s[|s| - 1] as nat - '0' as nat)
  }

  /** operator<< of an integer. */
  function Shown(n: int): Bytes {
    if n < 0 then "-" + Decimal(-n) else Decimal(n)
  }

  /** std::from_chars over the whole text: no plus sign, a minus only for signed
      types, out of range is an error. */
  function ParseInteger(raw: Bytes, lo: int, hi: int): Option<int> {
    var neg := lo < 0 && raw != [] && raw[0] == '-';
    var ds := if neg then raw[1..] else raw;
    if ds == [] || !AllDigits(ds) then None
    else
      var d: int := DigitsValue(ds);
      var v := if neg then -d else d;
      if lo <= v <= hi then Some(v) else None
  }

  const INT64_MAX: int := 0x7FFF_FFFF_FFFF_FFFF
  const INT64_MIN: int := -0x8000_0000_0000_0000
  const UINT32_MAX: int := 0xFFFF_FFFF

  lemma {:induction false} DecimalValue(n: nat)
    ensures DigitsValue(Decimal(n)) == n
  {
    if n >= 10 {
      DecimalValue(n / 10);
      assert Decimal(n)[..|Decimal(n)| - 1] == Decimal(n / 10);
    } else {
      assert Decimal(n)[..0] == [];
    }
  }

  /** Reading back what was printed. */
  lemma ParseShown(n: int, lo: int, hi: int)
    requires lo <= n <= hi && (n < 0 ==> lo < 0)
    ensures ParseInteger(Shown(n), lo, hi) == Some(n)
    ensures '\n' !in Shown(n) && '\t' !in Shown(n)
  {
    if n < 0 {
      DecimalValue(-n);
      assert Shown(n)[1..] == Decimal(-n);
      assert forall i :: 0 < i < |Shown(n)| ==> Shown(n)[i] == Decimal(-n)[i - 1];
    } else {
      DecimalValue(n);
      assert IsDigit(Shown(n)[0]);
    }
  }

  function Zeros(n: nat): (s: Bytes)
    ensures |s| == n && forall i :: 0 <= i < n ==> s[i] == '0'
  {
    seq(n, _ => '0')
  }

  /** Digits are leading zeros and the decimal form of their value. */
  lemma {:induction false} DigitsForm(s: Bytes) returns (n: nat)
    requires s != [] && AllDigits(s)
    ensures s == Zeros(n) + Decimal(DigitsValue(s))
  {
    var last := s[|s| - 1] as nat - '0' as nat;
    assert IsDigit(s[|s| - 1]) && Digit(last) == s[|s| - 1];
    if |s| == 1 {
      n := 0;
      assert s[..0] == [];
    } else {
      var front := s[..|s| - 1];
      var m := DigitsForm(front);
      var v := DigitsValue(front);
      assert s == front + [Digit(last)];
      if v == 0 {
        n := m + 1;
        assert Zeros(m) + "0" == Zeros(m + 1);
      } else {
        n := m;
        assert (10 * v + last) / 10 == v && (10 * v + last) % 10 == last;
      }
    }
  }

  lemma {:induction false} ZerosValue(n: nat, s: Bytes)
    requires AllDigits(s)
    ensures AllDigits(Zeros(n) + s) && DigitsValue(Zeros(n) + s) == DigitsValue(s)
    decreases |s|, n
  {
    var t := Zeros(n) + s;
    if s != [] {
      assert t[..|t| - 1] == Zeros(n) + s[..|s| - 1];
      ZerosValue(n, s[..|s| - 1]);
    } else if n > 0 {
      assert t[..|t| - 1] == Zeros(n - 1) + s;
      ZerosValue(n - 1, s);
    } else {
      assert t == s;
    }
  }

  /** The texts of a number: leading zeros are allowed, a plus sign is not, and a
      minus sign only where negative numbers are. */
  ghost predicate TextOf(raw: Bytes, v: int, signed: bool) {
    || (v >= 0 && exists n: nat :: raw == Zeros(n) + Decimal(v))
    || (v <= 0 && signed && exists n: nat :: raw == "-" + (Zeros(n) + Decimal(-v)))
  }

  /** A text is read as a number if and only if it is one of its texts and the number
      is in range. */
  lemma ParseIntegerIff(raw: Bytes, lo: int, hi: int, v: int)
    ensures ParseInteger(raw, lo, hi) == Some(v) <==> lo <= v <= hi && TextOf(raw, v, lo < 0)
  {
    hide Decimal, DigitsValue;
    if ParseInteger(raw, lo, hi) == Some(v) {
      if lo < 0 && raw[0] == '-' {
        var n := DigitsForm(raw[1..]);
        assert raw == "-" + raw[1..];
      } else {
        var n := DigitsForm(raw);
      }
    }
    if n: nat :| v >= 0 && raw == Zeros(n) + Decimal(v) {
      TextParses(n, v);
      assert IsDigit(raw[0]);
    }
    if n: nat :| v <= 0 && lo < 0 && raw == "-" + (Zeros(n) + Decimal(-v)) {
      TextParses(n, -v);
      assert raw[1..] == Zeros(n) + Decimal(-v);
    }
  }

  lemma TextParses(n: nat, v: nat)
    ensures var s := Zeros(n) + Decimal(v); s != [] && AllDigits(s) && DigitsValue(s) == v
  {
    hide Decimal, DigitsValue;
    DecimalValue(v);
    ZerosValue(n, Decimal(v));
  }

  // ---- sequence numbers ----

  const SEQUENCE_WIDTH: nat := 10

  /** FormatSequence: setw(10) with zeros. */
  function FormatSequence(n: nat): Bytes {
    var d := Decimal(n);
    if |d| < SEQUENCE_WIDTH then Zeros(SEQUENCE_WIDTH - |d|) + d else d
  }

  function Pow10(w: nat): (p: nat)
    ensures p > 0
  {
    if w == 0 then 1 else 10 * Pow10(w - 1)
  }

  /** The last w decimal digits. */
  function Fixed(n: nat, w: nat): (s: Bytes)
    ensures |s| == w && AllDigits(s)
  {
    if w == 0 then [] else Fixed(n / 10, w - 1) + [Digit(n % 10)]
  }

  lemma {:induction false} FixedIsPadded(n: nat, w: nat)
    requires w >= 1 && n < Pow10(w)
    ensures |Decimal(n)| <= w && Fixed(n, w) == Zeros(w - |Decimal(n)|) + Decimal(n)
  {
    if w == 1 {
      assert Pow10(0) == 1 && n < 10;
      assert Fixed(n / 10, 0) == [];
    } else if n < 10 {
      FixedZero(w - 1);
      assert n / 10 == 0 && n % 10 == n;
      assert Zeros(w - 1) + Decimal(n) == Fixed(n, w);
    } else {
      FixedIsPadded(n / 10, w - 1);
      var d := Decimal(n / 10);
      assert Zeros(w - 1 - |d|) + d + [Digit(n % 10)] == Zeros(w - |Decimal(n)|) + Decimal(n);
    }
  }

  lemma {:induction false} FixedZero(w: nat)
    ensures Fixed(0, w) == Zeros(w)
  {
    if w > 0 {
      FixedZero(w - 1);
    }
  }

  lemma {:induction false} LtSnoc(a: Bytes, x: char, b: Bytes, y: char)
    requires |a| == |b|
    ensures Lt(a + [x], b + [y]) <==> Lt(a, b) || (a == b && x < y)
  {
    if a != [] {
      assert (a + [x])[1..] == a[1..] + [x] && (b + [y])[1..] == b[1..] + [y];
      LtSnoc(a[1..], x, b[1..], y);
      assert a == [a[0]] + a[1..] && b == [b[0]] + b[1..];
    } else {
      assert (a + [x])[1..] == [] && (b + [y])[1..] == [];
    }
  }

  lemma {:induction false} FixedOrder(m: nat, n: nat, w: nat)
    requires m < Pow10(w) && n < Pow10(w)
    ensures Lt(Fixed(m, w), Fixed(n, w)) <==> m < n
    ensures Fixed(m, w) == Fixed(n, w) <==> m == n
  {
    if w > 0 {
      FixedOrder(m / 10, n / 10, w - 1);
      LtSnoc(Fixed(m / 10, w - 1), Digit(m % 10), Fixed(n / 10, w - 1), Digit(n % 10));
      var a, b := Fixed(m, w), Fixed(n, w);
      assert a[..w - 1] == Fixed(m / 10, w - 1) && b[..w - 1] == Fixed(n / 10, w - 1);
      assert a[w - 1] == Digit(m % 10) && b[w - 1] == Digit(n % 10);
    }
  }

  lemma TenDigits()
    ensures Pow10(10) == 10_000_000_000
  {
    assert Pow10(2) == 100 && Pow10(4) == 10_000;
    assert Pow10(6) == 1_000_000 && Pow10(8) == 100_000_000;
  }

  lemma SequenceIsFixed(n: nat)
    requires n <= UINT32_MAX
    ensures FormatSequence(n) == Fixed(n, 10)
  {
    hide Pow10, Decimal, Fixed;
    TenDigits();
    FixedIsPadded(n, 10);
    assert Zeros(0) + Decimal(n) == Decimal(n);
  }

  /** Ten digits with leading zeros make string order agree with number order for
      every 32-bit sequence number. */
  lemma SequenceOrder(m: nat, n: nat)
    requires m <= UINT32_MAX && n <= UINT32_MAX
    ensures Lt(FormatSequence(m), FormatSequence(n)) <==> m < n
    ensures FormatSequence(m) == FormatSequence(n) <==> m == n
    ensures |FormatSequence(m)| == 10 && AllDigits(FormatSequence(m))
  {
    hide FormatSequence, Pow10, Fixed, Lt, AllDigits;
    SequenceIsFixed(m);
    SequenceIsFixed(n);
    TenDigits();
    FixedOrder(m, n, 10);
  }
}
