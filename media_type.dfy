/** The part of the `content-type` package's `parse` that the fragments
    service relies on: the media type before the first `;`, trimmed, checked
    to be `type "/" subtype` made of token characters (section 3.1.1.1 of
    RFC 7231), and lower-cased. Parameters are not part of the base type. */
module MediaType {
  import opened Wrappers

  /** The message `content-type` throws for a value that is not a media type. */
  const InvalidMediaType := "invalid media type"

  /** The characters JS `String.prototype.trim` removes at either end. */
  predicate IsJsSpace(c: char) {
    || c == ' ' || c == '\t' || c == '\n' || c == '\r' || c == '\U{B}' || c == '\U{C}'
    || c == '\U{A0}' || c == '\U{1680}' || ('\U{2000}' <= c <= '\U{200A}')
    || c == '\U{2028}' || c == '\U{2029}' || c == '\U{202F}' || c == '\U{205F}'
    || c == '\U{3000}' || c == '\U{FEFF}'
  }

  /** `tchar` of RFC 7230 section 3.2.6. */
  predicate IsTokenChar(c: char) {
    || ('a' <= c <= 'z') || ('A' <= c <= 'Z') || ('0' <= c <= '9')
    || c == '!' || c == '#' || c == '$' || c == '%' || c == '&' || c == '\''
    || c == '*' || c == '+' || c == '.' || c == '^' || c == '_' || c == '`'
    || c == '|' || c == '~' || c == '-'
  }

  predicate IsToken(s: string) {
    |s| > 0 && forall i :: 0 <= i < |s| ==> IsTokenChar(s[i])
  }

  /** Index of the first `c` in `s`, or `|s|` when there is none. */
  function IndexOf(s: string, c: char): nat {
    if s == [] then 0 else if s[0] == c then 0 else 1 + IndexOf(s[1..], c)
  }

  /** `IndexOf` is the position of the first `c`, or the length when `s`
      holds none. */
  lemma {:induction false} IndexOfIsFirst(s: string, c: char)
    ensures IndexOf(s, c) <= |s|
    ensures forall i :: 0 <= i < IndexOf(s, c) ==> s[i] != c
    ensures IndexOf(s, c) < |s| ==> s[IndexOf(s, c)] == c
  {
    if s != [] && s[0] != c {
      IndexOfIsFirst(s[1..], c);
      forall i | 0 <= i < IndexOf(s, c) ensures s[i] != c {
        if i > 0 { assert s[i] == s[1..][i - 1]; }
      }
    }
  }

  /** `type "/" subtype`, both tokens: a slash with a token on either side
      (a token never holds `/`, so the first slash is the only one). */
  predicate IsTypeSubtype(t: string) {
    var k := IndexOf(t, '/');
    0 < k < |t| - 1 && forall i :: 0 <= i < |t| && i != k ==> IsTokenChar(t[i])
  }

  predicate HasNoUpper(t: string) {
    forall i :: 0 <= i < |t| ==> !('A' <= t[i] <= 'Z')
  }

  /** What a successful parse yields: a lower-case `type/subtype`. */
  predicate IsBaseType(t: string) {
    IsTypeSubtype(t) && HasNoUpper(t)
  }

  function TrimStart(s: string): string {
    if s != [] && IsJsSpace(s[0]) then TrimStart(s[1..]) else s
  }

  /** `TrimStart` drops exactly the leading spaces. */
  lemma {:induction false} TrimStartDropsLeadingSpace(s: string)
    ensures |TrimStart(s)| <= |s| && TrimStart(s) == s[|s| - |TrimStart(s)|..]
    ensures forall i :: 0 <= i < |s| - |TrimStart(s)| ==> IsJsSpace(s[i])
    ensures TrimStart(s) == [] || !IsJsSpace(TrimStart(s)[0])
  {
    if s != [] && IsJsSpace(s[0]) {
      TrimStartDropsLeadingSpace(s[1..]);
      forall i | 0 <= i < |s| - |TrimStart(s)| ensures IsJsSpace(s[i]) {
        if i > 0 { assert s[i] == s[1..][i - 1]; }
      }
    }
  }

  function TrimEnd(s: string): string {
    if s != [] && IsJsSpace(s[|s| - 1]) then TrimEnd(s[..|s| - 1]) else s
  }

  /** `TrimEnd` drops exactly the trailing spaces. */
  lemma {:induction false} TrimEndDropsTrailingSpace(s: string)
    ensures |TrimEnd(s)| <= |s| && TrimEnd(s) == s[..|TrimEnd(s)|]
    ensures forall i :: |TrimEnd(s)| <= i < |s| ==> IsJsSpace(s[i])
    ensures TrimEnd(s) == [] || !IsJsSpace(TrimEnd(s)[|TrimEnd(s)| - 1])
  {
    if s != [] && IsJsSpace(s[|s| - 1]) {
      var s' := s[..|s| - 1];
      TrimEndDropsTrailingSpace(s');
      assert s'[..|TrimEnd(s')|] == s[..|TrimEnd(s')|];
      forall i | |TrimEnd(s)| <= i < |s| ensures IsJsSpace(s[i]) {
        if i < |s| - 1 { assert s[i] == s'[i]; }
      }
    }
  }

  /** JS `trim`: the longest infix without leading or trailing space. */
  function Trim(s: string): string {
    TrimEnd(TrimStart(s))
  }

  /** A string without spaces is its own trim. */
  lemma TrimKeepsPlain(s: string)
    requires forall i :: 0 <= i < |s| ==> !IsJsSpace(s[i])
    ensures Trim(s) == s
  {
    assert TrimStart(s) == s;
  }

  /** `header.slice(0, header.indexOf(';'))`, or the whole header. */
  function BeforeSemicolon(s: string): string {
    IndexOfIsFirst(s, ';');
    s[..IndexOf(s, ';')]
  }

  function LowerChar(c: char): char {
    if 'A' <= c <= 'Z' then (c as int - 'A' as int + 'a' as int) as char else c
  }

  /** ASCII `toLowerCase` (a media type is ASCII once it is checked). */
  function Lower(s: string): string {
    if s == [] then [] else [LowerChar(s[0])] + Lower(s[1..])
  }

  /** `Lower` maps `LowerChar` over the string. */
  lemma {:induction false} LowerIsPointwise(s: string)
    ensures |Lower(s)| == |s|
    ensures forall i :: 0 <= i < |s| ==> Lower(s)[i] == LowerChar(s[i])
  {
    if s != [] {
      LowerIsPointwise(s[1..]);
      forall i | 0 <= i < |s| ensures Lower(s)[i] == LowerChar(s[i]) {
        if i > 0 { assert Lower(s)[i] == Lower(s[1..])[i - 1]; }
      }
    }
  }

  /** `contentType.parse(value).type`: the base type, or the error thrown. */
  function Parse(value: string): (r: Result<string>)
    ensures r.Ok? ==> IsBaseType(r.value)
    ensures r.Err? ==> r.msg == InvalidMediaType
  {
    var candidate := Trim(BeforeSemicolon(value));
    if IsTypeSubtype(candidate) then
      LowerKeepsTypeSubtype(candidate);
      Ok(Lower(candidate))
    else Err(InvalidMediaType)
  }

  /** The message `content-type` throws for a request with no
      `Content-Type` header. */
  const HeaderMissing := "content-type header is missing from object"

  /** `contentType.parse(req).type`: the request's header is parsed. */
  function ParseRequest(header: Option<string>): (r: Result<string>)
    ensures header.None? ==> r == Err(HeaderMissing)
    ensures header.Some? ==> r == Parse(header.value)
  {
    match header
    case None => Err(HeaderMissing)
    case Some(value) => Parse(value)
  }

  lemma {:induction false} IndexOfAbsent(s: string, c: char)
    requires forall i :: 0 <= i < |s| ==> s[i] != c
    ensures IndexOf(s, c) == |s|
  {
    if s != [] { IndexOfAbsent(s[1..], c); }
  }

  lemma {:induction false} IndexOfAfterPrefix(a: string, b: string, c: char)
    requires forall i :: 0 <= i < |a| ==> a[i] != c
    ensures IndexOf(a + b, c) == |a| + IndexOf(b, c)
  {
    if a != [] {
      assert (a + b)[0] == a[0];
      assert (a + b)[1..] == a[1..] + b;
      IndexOfAfterPrefix(a[1..], b, c);
      assert IndexOf(a + b, c) == 1 + IndexOf((a + b)[1..], c);
    } else {
      assert a + b == b;
    }
  }

  /** `a/b` with two tokens is a `type/subtype`, split at the slash. */
  lemma JoinIsTypeSubtype(a: string, b: string)
    requires IsToken(a) && IsToken(b)
    ensures IndexOf(a + "/" + b, '/') == |a|
    ensures IsTypeSubtype(a + "/" + b)
  {
    var t := a + ("/" + b);
    assert forall i :: 0 <= i < |a| ==> a[i] != '/';
    IndexOfAfterPrefix(a, "/" + b, '/');
    assert ("/" + b)[0] == '/';
    assert a + "/" + b == t;
    forall i | 0 <= i < |t| && i != |a| ensures IsTokenChar(t[i]) {
      if i < |a| { assert t[i] == a[i]; } else { assert t[i] == b[i - |a| - 1]; }
    }
  }

  lemma LowerCharKeepsToken(c: char)
    requires IsTokenChar(c)
    ensures IsTokenChar(LowerChar(c)) && !('A' <= LowerChar(c) <= 'Z')
  {
  }

  lemma {:induction false} LowerKeepsIndexOf(s: string, c: char)
    requires !('A' <= c <= 'Z') && !('a' <= c <= 'z')
    ensures IndexOf(Lower(s), c) == IndexOf(s, c)
  {
    if s != [] {
      assert Lower(s)[1..] == Lower(s[1..]);
      LowerKeepsIndexOf(s[1..], c);
    }
  }

  lemma LowerKeepsTypeSubtype(t: string)
    requires IsTypeSubtype(t)
    ensures IsTypeSubtype(Lower(t)) && HasNoUpper(Lower(t))
  {
    var k := IndexOf(t, '/');
    LowerKeepsIndexOf(t, '/');
    LowerIsPointwise(t);
    forall i | 0 <= i < |t| && i != k
      ensures IsTokenChar(Lower(t)[i]) && !('A' <= Lower(t)[i] <= 'Z')
    {
      LowerCharKeepsToken(t[i]);
    }
  }

  lemma TokenCharIsPlain(c: char)
    requires c == '/' || IsTokenChar(c)
    ensures c != ';' && !IsJsSpace(c)
  {
  }

  /** A `type/subtype` holds no `;` and no space. */
  lemma TypeSubtypeIsPlain(t: string)
    requires IsTypeSubtype(t)
    ensures forall i :: 0 <= i < |t| ==> t[i] != ';' && !IsJsSpace(t[i])
  {
    IndexOfIsFirst(t, '/');
    forall i | 0 <= i < |t| ensures t[i] != ';' && !IsJsSpace(t[i]) {
      TokenCharIsPlain(t[i]);
    }
  }

  lemma LowerOfLower(t: string)
    requires HasNoUpper(t)
    ensures Lower(t) == t
  {
    LowerIsPointwise(t);
  }

  /** A lower-case `type/subtype` is its own base type, and nothing else is:
      parsing is the identity exactly on base types. */
  lemma BaseTypeIsFixedPoint(t: string)
    ensures Parse(t) == Ok(t) <==> IsBaseType(t)
  {
    if IsBaseType(t) {
      TypeSubtypeIsPlain(t);
      IndexOfAbsent(t, ';');
      assert BeforeSemicolon(t) == t;
      TrimKeepsPlain(t);
      LowerOfLower(t);
    }
  }

  /** Parsing twice gives what parsing once gave. */
  lemma ParseIdempotent(value: string)
    requires Parse(value).Ok?
    ensures Parse(Parse(value).value) == Parse(value)
  {
    BaseTypeIsFixedPoint(Parse(value).value);
  }

  /** Parameters after the first `;` never change the base type. */
  lemma ParseIgnoresParameters(t: string, parameters: string)
    requires ';' !in t
    ensures Parse(t + ";" + parameters) == Parse(t)
  {
    var h := t + ";" + parameters;
    IndexOfAbsent(t, ';');
    IndexOfAfterPrefix(t, ";" + parameters, ';');
    assert h == t + (";" + parameters);
    assert BeforeSemicolon(h) == t;
    assert BeforeSemicolon(t) == t;
  }

  /** Two lower-case tokens joined by a slash make a base type. */
  lemma JoinIsBaseType(a: string, b: string)
    requires IsToken(a) && IsToken(b) && HasNoUpper(a) && HasNoUpper(b)
    ensures IsBaseType(a + "/" + b)
  {
    JoinIsTypeSubtype(a, b);
    var t := a + "/" + b;
    forall i | 0 <= i < |t| ensures !('A' <= t[i] <= 'Z') {
      if i < |a| { assert t[i] == a[i]; }
      else if i > |a| { assert t[i] == b[i - |a| - 1]; }
    }
  }

  /** Lower-case letters around a single slash make a base type. */
  lemma LettersAroundSlash(t: string, k: nat)
    requires 0 < k < |t| - 1 && t[k] == '/'
    requires forall i :: 0 <= i < |t| && i != k ==> 'a' <= t[i] <= 'z'
    ensures IsBaseType(t)
  {
    var a, b := t[..k], t[k + 1..];
    assert forall i :: 0 <= i < |a| ==> a[i] == t[i];
    assert forall i :: 0 <= i < |b| ==> b[i] == t[k + 1 + i];
    JoinIsBaseType(a, b);
    assert t == a + "/" + b;
  }

  /** A lower-case `type/subtype` written out is its own base type. */
  lemma BaseTypeOf(a: string, b: string)
    requires IsToken(a) && IsToken(b) && HasNoUpper(a) && HasNoUpper(b)
    ensures IsBaseType(a + "/" + b)
    ensures Parse(a + "/" + b) == Ok(a + "/" + b)
  {
    JoinIsBaseType(a, b);
    BaseTypeIsFixedPoint(a + "/" + b);
  }

  /** The example of the fragment model's documentation comment:
      `text/html; charset=utf-8` has base type `text/html`. */
  lemma ParseDropsCharset(header: string)
    requires header == "text/html; charset=utf-8"
    ensures Parse(header) == Ok("text/html")
  {
    var t, p := "text/html", " charset=utf-8";
    LettersAroundSlash(t, 4);
    BaseTypeIsFixedPoint(t);
    ParseIgnoresParameters(t, p);
    SplitCharsetHeader(header, t, p);
  }

  lemma SplitCharsetHeader(header: string, t: string, p: string)
    requires header == "text/html; charset=utf-8"
    requires t == "text/html" && p == " charset=utf-8"
    ensures header == t + ";" + p
  {
  }

  /** `text/plain` is its own base type. */
  lemma PlainTextIsBaseType(t: string)
    requires t == "text/plain"
    ensures IsBaseType(t) && Parse(t) == Ok(t)
  {
    LettersAroundSlash(t, 4);
    BaseTypeIsFixedPoint(t);
  }
}
