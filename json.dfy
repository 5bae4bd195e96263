/** A recognizer for JSON texts (RFC 8259), the grammar `JSON.parse` accepts.
    It reads the payload's bytes directly: `JSON.parse` sees the payload
    decoded as UTF-8, but decoding never turns a byte at or above 0x80 into
    an ASCII character, and outside strings JSON allows only ASCII, so both
    accept the same payloads. Each recognizer takes a start position and
    returns the position just after what it read, or `None`. */
module Json {
  import opened Wrappers

  const Quote: byte := 0x22
  const Backslash: byte := 0x5C
  const Comma: byte := 0x2C
  const Colon: byte := 0x3A
  const Minus: byte := 0x2D
  const Plus: byte := 0x2B
  const Dot: byte := 0x2E
  const Zero: byte := 0x30
  const OpenBracket: byte := 0x5B
  const CloseBracket: byte := 0x5D
  const OpenBrace: byte := 0x7B
  const CloseBrace: byte := 0x7D

  const True: Bytes := [0x74, 0x72, 0x75, 0x65]
  const False: Bytes := [0x66, 0x61, 0x6C, 0x73, 0x65]
  const Null: Bytes := [0x6E, 0x75, 0x6C, 0x6C]

  /** `ws` of RFC 8259 section 2: space, tab, line feed, carriage return. */
  predicate IsWhitespace(b: byte) {
    b == 0x20 || b == 0x09 || b == 0x0A || b == 0x0D
  }

  predicate IsDigit(b: byte) {
    0x30 <= b <= 0x39
  }

  predicate IsHexDigit(b: byte) {
    IsDigit(b) || 0x41 <= b <= 0x46 || 0x61 <= b <= 0x66
  }

  /** The characters that may follow a backslash, other than `u`. */
  predicate IsShortEscape(b: byte) {
    b == Quote || b == Backslash || b == 0x2F || b == 0x62 || b == 0x66
    || b == 0x6E || b == 0x72 || b == 0x74
  }

  function SkipWhitespace(s: Bytes, i: nat): (j: nat)
    requires i <= |s|
    ensures i <= j <= |s|
    ensures forall k :: i <= k < j ==> IsWhitespace(s[k])
    ensures j == |s| || !IsWhitespace(s[j])
    decreases |s| - i
  {
    if i < |s| && IsWhitespace(s[i]) then SkipWhitespace(s, i + 1) else i
  }

  function SkipDigits(s: Bytes, i: nat): (j: nat)
    requires i <= |s|
    ensures i <= j <= |s|
    ensures forall k :: i <= k < j ==> IsDigit(s[k])
    ensures j == |s| || !IsDigit(s[j])
    decreases |s| - i
  {
    if i < |s| && IsDigit(s[i]) then SkipDigits(s, i + 1) else i
  }

  /** One of the literal names `true`, `false`, `null` at `i`. */
  function Literal(s: Bytes, i: nat, name: Bytes): (r: Option<nat>)
    requires i <= |s|
    ensures r.Some? ==> r.value == i + |name| <= |s| && s[i..r.value] == name
  {
    if i + |name| <= |s| && s[i..i + |name|] == name then Some(i + |name|) else None
  }

  /** `number = [ minus ] int [ frac ] [ exp ]` (RFC 8259 section 6): no leading
      zeros, at least one digit after `.` and after `e`. */
  function Number(s: Bytes, i: nat): (r: Option<nat>)
    requires i <= |s|
    ensures r.Some? ==> i < r.value <= |s|
  {
    var a := if i < |s| && s[i] == Minus then i + 1 else i;
    if a == |s| || !IsDigit(s[a]) then None
    else
      var b := if s[a] == Zero then a + 1 else SkipDigits(s, a + 1);
      if b < |s| && s[b] == Dot && !(b + 1 < |s| && IsDigit(s[b + 1])) then None
      else
        var c := if b < |s| && s[b] == Dot then SkipDigits(s, b + 2) else b;
        if c < |s| && (s[c] == 0x65 || s[c] == 0x45) then
          var d := if c + 1 < |s| && (s[c + 1] == Plus || s[c + 1] == Minus) then c + 2 else c + 1;
          if d < |s| && IsDigit(s[d]) then Some(SkipDigits(s, d + 1)) else None
        else Some(c)
  }

  /** The rest of a string after its opening quote (RFC 8259 section 7): escapes are
      the short ones or `\u` with four hex digits; control characters below
      0x20 must be escaped. */
  function StringRest(s: Bytes, i: nat): (r: Option<nat>)
    requires i <= |s|
    ensures r.Some? ==> i < r.value <= |s|
    decreases |s| - i
  {
    if i == |s| then None
    else if s[i] == Quote then Some(i + 1)
    else if s[i] == Backslash then
      if i + 1 == |s| then None
      else if IsShortEscape(s[i + 1]) then StringRest(s, i + 2)
      else if s[i + 1] == 0x75 then
        if i + 6 <= |s| && IsHexDigit(s[i + 2]) && IsHexDigit(s[i + 3])
           && IsHexDigit(s[i + 4]) && IsHexDigit(s[i + 5])
        then StringRest(s, i + 6)
        else None
      else None
    else if s[i] < 0x20 then None
    else StringRest(s, i + 1)
  }

  /** `value` of RFC 8259 section 3 starting exactly at `i`. */
  function Value(s: Bytes, i: nat): (r: Option<nat>)
    requires i <= |s|
    ensures r.Some? ==> i < r.value <= |s|
    decreases |s| - i, 1
  {
    if i == |s| then None
    else if s[i] == OpenBrace then ObjectRest(s, i + 1)
    else if s[i] == OpenBracket then ArrayRest(s, i + 1)
    else if s[i] == Quote then StringRest(s, i + 1)
    else if s[i] == True[0] then Literal(s, i, True)
    else if s[i] == False[0] then Literal(s, i, False)
    else if s[i] == Null[0] then Literal(s, i, Null)
    else if s[i] == Minus || IsDigit(s[i]) then Number(s, i)
    else None
  }

  /** The rest of an array after `[` (RFC 8259 section 5). */
  function ArrayRest(s: Bytes, i: nat): (r: Option<nat>)
    requires i <= |s|
    ensures r.Some? ==> i < r.value <= |s|
    decreases |s| - i, 3
  {
    var j := SkipWhitespace(s, i);
    if j < |s| && s[j] == CloseBracket then Some(j + 1) else Elements(s, j)
  }

  /** `value ws ( "," ws elements | "]" )`. */
  function Elements(s: Bytes, i: nat): (r: Option<nat>)
    requires i <= |s|
    ensures r.Some? ==> i < r.value <= |s|
    decreases |s| - i, 2
  {
    match Value(s, i)
    case None => None
    case Some(j) =>
      var k := SkipWhitespace(s, j);
      if k == |s| then None
      else if s[k] == Comma then Elements(s, SkipWhitespace(s, k + 1))
      else if s[k] == CloseBracket then Some(k + 1)
      else None
  }

  /** The rest of an object after `{` (RFC 8259 section 4). */
  function ObjectRest(s: Bytes, i: nat): (r: Option<nat>)
    requires i <= |s|
    ensures r.Some? ==> i < r.value <= |s|
    decreases |s| - i, 3
  {
    var j := SkipWhitespace(s, i);
    if j < |s| && s[j] == CloseBrace then Some(j + 1) else Members(s, j)
  }

  /** `string ws ":" ws value ws ( "," ws members | "}" )`. */
  function Members(s: Bytes, i: nat): (r: Option<nat>)
    requires i <= |s|
    ensures r.Some? ==> i < r.value <= |s|
    decreases |s| - i, 2
  {
    if i == |s| || s[i] != Quote then None
    else match StringRest(s, i + 1)
    case None => None
    case Some(j) =>
      var k := SkipWhitespace(s, j);
      if k == |s| || s[k] != Colon then None
      else match Value(s, SkipWhitespace(s, k + 1))
      case None => None
      case Some(v) =>
        var m := SkipWhitespace(s, v);
        if m == |s| then None
        else if s[m] == Comma then Members(s, SkipWhitespace(s, m + 1))
        else if s[m] == CloseBrace then Some(m + 1)
        else None
  }

  /** `JSON-text = ws value ws`: what `JSON.parse` accepts. */
  predicate WellFormed(s: Bytes) {
    match Value(s, SkipWhitespace(s, 0))
    case None => false
    case Some(j) => SkipWhitespace(s, j) == |s|
  }

  /** A run of bytes needing no escape, closed by a quote, is a string. */
  lemma {:induction false} PlainStringRest(s: Bytes, i: nat, j: nat)
    requires i <= j < |s| && s[j] == Quote
    requires forall k :: i <= k < j ==> s[k] != Quote && s[k] != Backslash && s[k] >= 0x20
    ensures StringRest(s, i) == Some(j + 1)
    decreases j - i
  {
    if i < j { PlainStringRest(s, i + 1, j); }
  }

  /** An empty or all-blank payload is not a JSON text. */
  lemma BlankIsNotJson(s: Bytes)
    requires forall k :: 0 <= k < |s| ==> IsWhitespace(s[k])
    ensures !WellFormed(s)
  {
    assert SkipWhitespace(s, 0) == |s|;
  }

  /** `{"key":"value"}` is a JSON text. */
  lemma KeyValueObjectIsJson(s: Bytes)
    requires s == [0x7B, 0x22, 0x6B, 0x65, 0x79, 0x22, 0x3A, 0x22, 0x76, 0x61, 0x6C, 0x75, 0x65, 0x22, 0x7D]
    ensures WellFormed(s)
  {
    PlainStringRest(s, 2, 5);
    PlainStringRest(s, 8, 13);
    assert SkipWhitespace(s, 0) == 0;
    assert SkipWhitespace(s, 1) == 1;
    assert SkipWhitespace(s, 6) == 6;
    assert SkipWhitespace(s, 7) == 7;
    assert Value(s, 7) == Some(14);
    assert SkipWhitespace(s, 14) == 14;
    assert Members(s, 1) == Some(15);
    assert Value(s, 0) == Some(15);
    assert SkipWhitespace(s, 15) == 15;
  }

  /** `{not json` is not: an object member must start with a quote. */
  lemma UnquotedKeyIsNotJson(s: Bytes)
    requires s == [0x7B, 0x6E, 0x6F, 0x74, 0x20, 0x6A, 0x73, 0x6F, 0x6E]
    ensures !WellFormed(s)
  {
    assert SkipWhitespace(s, 0) == 0;
    assert SkipWhitespace(s, 1) == 1;
    assert Members(s, 1) == None;
    assert Value(s, 0) == None;
  }
}
