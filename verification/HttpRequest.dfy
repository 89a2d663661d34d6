/** `http::request::from_string` of src/http/http_request.cpp, and what it makes of a request
    that has only partly arrived. */
module HttpRequests {
  import opened Bytes
  import opened StringUtil
  import opened Url
  import opened Decimals
  import opened HttpParsers

  datatype Request = Request(
    message: Message, kind: string, uri: string, params: map<string, string>,
    proto: string, version: string, cookies: map<string, string>)

  /** A request object as it is constructed. */
  const EMPTY := Request(Message("", map[], ""), "GET", "/", map[], "HTTP", "1.1", map[])

  datatype RequestParsed = RequestParsed(status: Status, request: Request)

  // ---------- the loops over pairs ----------

  function AddParam(m: map<string, string>, pair: string): map<string, string> {
    var tokens := Tokens(pair, '=');
    if |tokens| == 2 then m[tokens[0] := tokens[1]] else m
  }

  function AddParams(m: map<string, string>, pairs: seq<string>): map<string, string>
    decreases |pairs|
  {
    if pairs == [] then m else AddParams(AddParam(m, pairs[0]), pairs[1..])
  }

  function ParamsOf(s: string): map<string, string> {
    AddParams(map[], Tokens(s, '&'))
  }

  method ParseGetParams(s: string) returns (res: map<string, string>)
    ensures res == ParamsOf(s)
  {
    hide Tokens;
    res := map[];
    var pairs := TokenizeChar(s, '&');
    for i := 0 to |pairs|
      invariant AddParams(res, pairs[i..]) == ParamsOf(s)
    {
      assert pairs[i..][1..] == pairs[i + 1..];
      var tokens := TokenizeChar(pairs[i], '=');
      if |tokens| == 2 {
        res := res[tokens[0] := tokens[1]];
      }
    }
  }

  function AddCookie(m: map<string, string>, cookie: string): map<string, string> {
    var tokens := Tokens(cookie, '=');
    if |tokens| == 2
    then m[Without(tokens[0], CharsOf(COOKIE_SEPARATORS)) := UrlDecode(tokens[1])]
    else m
  }

  function AddCookies(m: map<string, string>, cookies: seq<string>): map<string, string>
    decreases |cookies|
  {
    if cookies == [] then m else AddCookies(AddCookie(m, cookies[0]), cookies[1..])
  }

  function CookiesOf(s: string): map<string, string> {
    AddCookies(map[], Tokens(s, ';'))
  }

  method ParseCookies(s: string) returns (res: map<string, string>)
    ensures res == CookiesOf(s)
  {
    hide Tokens, UrlDecode, Without, CharsOf;
    res := map[];
    var cookies := TokenizeChar(s, ';');
    for i := 0 to |cookies|
      invariant AddCookies(res, cookies[i..]) == CookiesOf(s)
    {
      assert cookies[i..][1..] == cookies[i + 1..];
      var cookie := TokenizeChar(cookies[i], '=');
      if |cookie| == 2 {
        var key := StripAll(cookie[0], COOKIE_SEPARATORS);
        var val := UrlDecodeString(cookie[1]);
        res := res[key := val];
      }
    }
  }

  // ---------- what the loops over pairs read back ----------

  function ParamTexts(params: map<string, string>, order: seq<string>): seq<string>
    requires forall k :: k in order ==> k in params
  {
    if order == [] then []
    else [order[0] + "=" + params[order[0]]] + ParamTexts(params, order[1..])
  }

  predicate ParamPart(s: string) {
    OneToken(s, '=') && '&' !in s
  }

  lemma {:induction false} ParamsAdded(params: map<string, string>, order: seq<string>, m: map<string, string>)
    requires forall k :: k in order ==> k in params && ParamPart(k) && ParamPart(params[k])
    ensures AddParams(m, ParamTexts(params, order)) == SetAll(m, params, order)
    ensures forall t :: t in ParamTexts(params, order) ==> OneToken(t, '&')
    decreases |order|
  {
    hide Tokens;
    if order != [] {
      var k, v := order[0], params[order[0]];
      assert k in order;
      JoinTwo(k, v, "=");
      TokensJoin([k, v], '=');
      assert ParamTexts(params, order)[1..] == ParamTexts(params, order[1..]);
      ParamsAdded(params, order[1..], m[k := v]);
    }
  }

  /** Parameters written as `key=value` and joined by '&', in any order, come back as the
      map they were. */
  lemma ParamsComeBack(params: map<string, string>, order: seq<string>)
    requires Iterates(order, params)
    requires forall k :: k in params ==> ParamPart(k) && ParamPart(params[k])
    ensures ParamsOf(Join(ParamTexts(params, order), "&")) == params
  {
    hide Tokens, ParamPart;
    ParamsAdded(params, order, map[]);
    TokensJoin(ParamTexts(params, order), '&');
    SetAllContents(map[], params, order);
    assert SetAll(map[], params, order) == params;
  }

  /** Cookies as a browser sends them: values encoded, "; " between two cookies. */
  function CookieTexts(cookies: map<string, string>, order: seq<string>, gap: string): seq<string>
    requires forall k :: k in order ==> k in cookies
  {
    if order == [] then []
    else [gap + order[0] + "=" + UrlEncode(cookies[order[0]])] + CookieTexts(cookies, order[1..], " ")
  }

  predicate CookieName(s: string) {
    s != "" && forall c :: c in s ==> c !in CharsOf(COOKIE_SEPARATORS)
  }

  predicate CookieValue(s: string) {
    s != "" && ByteString(s) && '\0' !in s
  }

  lemma CookieTokens(gap: string, k: string, v: string)
    requires (gap == "" || gap == " ") && CookieName(k) && CookieValue(v)
    ensures var t := gap + k + "=" + UrlEncode(v);
            && OneToken(t, ';')
            && Tokens(t, '=') == [gap + k, UrlEncode(v)]
            && Without(gap + k, CharsOf(COOKIE_SEPARATORS)) == k
  {
    hide Tokens, CharsOf, Without;
    SeparatorsHold();
    var e := UrlEncode(v);
    EncodedIsSafe(v);
    assert '=' !in e && ';' !in e && e != "";
    assert '=' !in k && ';' !in k;
    JoinTwo(gap + k, e, "=");
    TokensJoin([gap + k, e], '=');
    WithoutConcat(gap, k, CharsOf(COOKIE_SEPARATORS));
    WithoutAbsent(k, CharsOf(COOKIE_SEPARATORS));
    GapVanishes(gap);
  }

  lemma GapVanishes(gap: string)
    requires gap == "" || gap == " "
    ensures Without(gap, CharsOf(COOKIE_SEPARATORS)) == ""
  {
    SeparatorsHold();
  }

  lemma SeparatorsHold()
    ensures ' ' in CharsOf(COOKIE_SEPARATORS) && ';' in CharsOf(COOKIE_SEPARATORS)
    ensures '=' in CharsOf(COOKIE_SEPARATORS)
  {
    var cs := COOKIE_SEPARATORS;
    assert cs[0] == ' ' && cs[8] == ';' && cs[16] == '=';
  }

  lemma {:induction false} CookiesAdded(cookies: map<string, string>, order: seq<string>, gap: string,
                                        m: map<string, string>)
    requires gap == "" || gap == " "
    requires forall k :: k in order ==> k in cookies && CookieName(k) && CookieValue(cookies[k])
    ensures AddCookies(m, CookieTexts(cookies, order, gap)) == SetAll(m, cookies, order)
    ensures forall t :: t in CookieTexts(cookies, order, gap) ==> OneToken(t, ';')
    decreases |order|
  {
    hide Tokens, CharsOf, Without, UrlDecode, UrlEncode, OneToken;
    if order != [] {
      var k, v := order[0], cookies[order[0]];
      CookieTokens(gap, k, v);
      DecodeEncode(v);
      assert CookieTexts(cookies, order, gap)[1..] == CookieTexts(cookies, order[1..], " ");
      CookiesAdded(cookies, order[1..], " ", m[k := v]);
    }
  }

  /** Cookies sent in one field, in any order, come back as the map they were. */
  lemma CookiesComeBack(cookies: map<string, string>, order: seq<string>)
    requires Iterates(order, cookies)
    requires forall k :: k in cookies ==> CookieName(k) && CookieValue(cookies[k])
    ensures CookiesOf(Join(CookieTexts(cookies, order, ""), ";")) == cookies
  {
    hide Tokens, CookieName, CookieValue;
    CookiesAdded(cookies, order, "", map[]);
    TokensJoin(CookieTexts(cookies, order, ""), ';');
    SetAllContents(map[], cookies, order);
    assert SetAll(map[], cookies, order) == cookies;
  }

  // ---------- from_string ----------

  function TouchField(r: Request, k: string): Request {
    r.(message := r.message.(fields := Touch(r.message.fields, k)))
  }

  function FieldOf(r: Request, k: string): string {
    Field(r.message, k)
  }

  /** The request line; `tokens` has at least three entries. */
  function ReadTarget(r: Request, tokens: seq<string>): Request
    requires |tokens| >= 3
  {
    var uri := UrlDecode(tokens[1]);
    if tokens[0] == "GET" then
      var parts := Tokens(uri, '?');
      if parts == [] then r.(kind := tokens[0], uri := uri, params := map[])
      else r.(kind := tokens[0], uri := parts[0],
              params := if |parts| > 1 then ParamsOf(parts[1]) else r.params)
    else r.(kind := tokens[0], uri := uri, params := map[])
  }

  function ReadForm(r: Request): Request {
    var t := TouchField(r, "content-type");
    if FieldOf(t, "content-type") == "application/x-www-form-urlencoded"
    then t.(params := ParamsOf(t.message.body)) else t
  }

  function ReadCookies(r: Request): Request {
    var t := TouchField(r, "cookie");
    if FieldOf(t, "cookie") != "" then t.(cookies := CookiesOf(FieldOf(t, "cookie"))) else t
  }

  function FromText(prior: Request, text: string): RequestParsed {
    var p := ParseHeader(prior.message, text);
    var r := prior.(message := p.message);
    if p.status != ParseSuccess then RequestParsed(p.status, r)
    else
      var tokens := Tokens(r.message.header, ' ');
      if |tokens| < 3 then RequestParsed(ParseError, r)
      else
        var s := ReadTarget(r, tokens);
        var proto := Tokens(tokens[2], '/');
        if |proto| != 2 then RequestParsed(ParseError, s)
        else
          var t := TouchField(s.(proto := proto[0], version := proto[1]), "content-length");
          if LengthTest(t.message) != ParseSuccess then RequestParsed(LengthTest(t.message), t)
          else RequestParsed(ParseSuccess, ReadCookies(ReadForm(t)))
  }

  class HttpRequest {
    const parser: Parser
    var kind: string
    var uri: string
    var params: map<string, string>
    var proto: string
    var version: string
    var cookies: map<string, string>

    function View(): Request
      reads this, parser
    {
      Request(parser.View(), kind, uri, params, proto, version, cookies)
    }

    constructor ()
      ensures View() == EMPTY && fresh(parser)
    {
      parser := new Parser();
      kind, uri, params := "GET", "/", map[];
      proto, version, cookies := "HTTP", "1.1", map[];
    }

    /** `m_header_fields[k]`. */
    method Lookup(k: string) returns (v: string)
      modifies parser
      ensures View() == TouchField(old(View()), k)
      ensures v == FieldOf(View(), k) == FieldOf(old(View()), k)
    {
      if k !in parser.headerFields {
        parser.headerFields := parser.headerFields[k := ""];
      }
      v := parser.headerFields[k];
    }

    method ReadRequestLine(tokens: seq<string>)
      requires |tokens| >= 3
      modifies this
      ensures View() == ReadTarget(old(View()), tokens)
    {
      kind := tokens[0];
      if kind == "GET" {
        var u := UrlDecodeString(tokens[1]);
        var parts := TokenizeChar(u, '?');
        if parts == [] {
          uri := u;
          params := map[];
        } else {
          uri := parts[0];
          if |parts| > 1 {
            params := ParseGetParams(parts[1]);
          }
        }
      } else {
        uri := UrlDecodeString(tokens[1]);
        params := map[];
      }
    }

    method ReadBody()
      modifies this, parser
      ensures View() == ReadCookies(ReadForm(old(View())))
    {
      hide ParamsOf, CookiesOf;
      var contentType := Lookup("content-type");
      if contentType == "application/x-www-form-urlencoded" {
        params := ParseGetParams(parser.body);
      }
      var cookie := Lookup("cookie");
      if cookie != "" {
        cookies := ParseCookies(cookie);
      }
    }

    method FromString(text: string) returns (status: Status)
      modifies this, parser
      ensures RequestParsed(status, View()) == FromText(old(View()), text)
    {
      hide ParseHeader, ReadTarget, ReadForm, ReadCookies, Stoi, Tokens;
      status := parser.HeaderFromString(text);
      if status != ParseSuccess {
        return;
      }
      var headerTokens := TokenizeChar(parser.header, ' ');
      if |headerTokens| < 3 {
        return ParseError;
      }
      ReadRequestLine(headerTokens);
      var protoTokens := TokenizeChar(headerTokens[2], '/');
      if |protoTokens| != 2 {
        return ParseError;
      }
      proto := protoTokens[0];
      version := protoTokens[1];
      var length := Lookup("content-length");
      if length != "" {
        match Stoi(length) {
          case InvalidArgument =>
            return Threw;
          case OutOfRange =>
          case IntValue(n) =>
            if n > 0 && |parser.body| < n {
              return ParseErrorAgain;
            }
        }
      }
      ReadBody();
      return ParseSuccess;
    }
  }

  // ---------- printing a request, then parsing it ----------

  /** The start line that `update_header` builds. */
  function StartLine(kind: string, uri: string, proto: string, version: string): string {
    kind + " " + uri + " " + proto + "/" + version
  }

  /** A start line splits into the parts it was built from. */
  lemma StartLineTokens(kind: string, uri: string, proto: string, version: string)
    requires OneToken(kind, ' ') && OneToken(uri, ' ') && OneToken(proto, ' ') && OneToken(version, ' ')
    requires OneToken(proto, '/') && OneToken(version, '/')
    ensures var target := proto + "/" + version;
            && Tokens(StartLine(kind, uri, proto, version), ' ') == [kind, uri, target]
            && Tokens(target, '/') == [proto, version]
  {
    hide Tokens;
    var target := proto + "/" + version;
    assert ' ' !in target;
    TokensJoin([proto, version], '/');
    JoinTwo(proto, version, "/");
    TokensJoin([kind, uri, target], ' ');
    JoinTwo(uri, target, " ");
    assert [kind, uri, target][1..] == [uri, target];
    assert Join([kind, uri, target], " ") == kind + " " + (uri + " " + target);
    assert kind + " " + (uri + " " + target) == StartLine(kind, uri, proto, version);
  }

  lemma JoinTwo(s: string, t: string, d: string)
    ensures Join([s, t], d) == s + d + t
  {
    assert [s, t][1..] == [t];
  }

  /** Whether the target is read as it was printed: it is plain, and a GET target has no
      query, unless it is nothing but question marks. */
  predicate TargetSurvives(kind: string, uri: string) {
    Plain(uri) && (kind == "GET" && '?' in uri ==> forall c :: c in uri ==> c == '?')
  }

  lemma TargetSurvivesIff(kind: string, uri: string, r: Request, tokens: seq<string>)
    requires |tokens| >= 3 && tokens[0] == kind && tokens[1] == uri
    ensures ReadTarget(r, tokens).uri == uri <==> TargetSurvives(kind, uri)
  {
    hide UrlDecode, Tokens, ParamsOf, Without;
    DecodeFixesIffPlain(uri);
    var u := UrlDecode(uri);
    var parts := Tokens(u, '?');
    if kind == "GET" {
      ConcatTokens(u, '?');
      WithoutShrinks(u, '?');
      TokensAreFree(u, '?');
      if parts != [] {
        assert parts[0] in parts;
        assert parts[0] <= Concat(parts);
        if parts[0] == uri {
          assert Concat(parts) == u;
        } else if u == uri && '?' !in u {
          TokensFree(u, '?');
        }
      }
    }
  }

  lemma {:induction false} WithoutShrinks(s: string, c: char)
    ensures c in s <==> |Without(s, {c})| < |s|
    ensures c !in s ==> Without(s, {c}) == s
    ensures Without(s, {c}) == "" <==> forall d :: d in s ==> d == c
  {
    if s != "" {
      WithoutShrinks(s[1..], c);
      assert forall d :: d in s <==> d == s[0] || d in s[1..];
      assert s == [s[0]] + s[1..];
    }
  }

  /** A request comes back from its text: type, protocol, version, fields and body, and the
      target exactly if it survives. */
  lemma RequestRoundTrip(r: Request, order: seq<string>)
    requires OneToken(r.kind, ' ') && OneToken(r.uri, ' ') && OneToken(r.proto, ' ') && OneToken(r.version, ' ')
    requires OneToken(r.proto, '/') && OneToken(r.version, '/')
    requires r.message.header == StartLine(r.kind, r.uri, r.proto, r.version)
    requires Printable(r.message) && Iterates(order, r.message.fields) && LengthMatches(r.message)
    ensures var p := FromText(EMPTY, Print(r.message, order));
            && p.status == ParseSuccess
            && p.request.kind == r.kind
            && (p.request.uri == r.uri <==> TargetSurvives(r.kind, r.uri))
            && p.request.proto == r.proto && p.request.version == r.version
            && p.request.message.header == r.message.header && p.request.message.body == r.message.body
            && (forall k :: k in r.message.fields ==>
                              k in p.request.message.fields
                              && p.request.message.fields[k] == r.message.fields[k])
  {
    hide Print, Tokens, FromText, Printable, ParseHeader, TargetSurvives;
    PrintThenParse(r.message, order, EMPTY.message);
    Verdict(Print(r.message, order));
    FreshTarget(r, order);
    MatchingLengthPasses(r.message);
    StartLineTokens(r.kind, r.uri, r.proto, r.version);
  }

  lemma MatchingLengthPasses(m: Message)
    requires LengthMatches(m)
    ensures LengthTest(m) == ParseSuccess
  {
    hide Stoi;
  }

  /** The parts of the request line, as they are read. */
  lemma FreshTarget(r: Request, order: seq<string>)
    requires OneToken(r.kind, ' ') && OneToken(r.uri, ' ') && OneToken(r.proto, ' ') && OneToken(r.version, ' ')
    requires OneToken(r.proto, '/') && OneToken(r.version, '/')
    requires r.message.header == StartLine(r.kind, r.uri, r.proto, r.version)
    requires Printable(r.message) && Iterates(order, r.message.fields)
    ensures var q := FromText(EMPTY, Print(r.message, order)).request;
            && q.kind == r.kind && q.proto == r.proto && q.version == r.version
            && (q.uri == r.uri <==> TargetSurvives(r.kind, r.uri))
  {
    hide ParseHeader, Print, LengthTest, Tokens, ParamsOf, CookiesOf, UrlDecode, Printable, TargetSurvives, ReadTarget;
    PrintThenParse(r.message, order, EMPTY.message);
    StartLineTokens(r.kind, r.uri, r.proto, r.version);
    var tokens := Tokens(r.message.header, ' ');
    var prior := EMPTY.(message := ParseHeader(EMPTY.message, Print(r.message, order)).message);
    TargetSurvivesIff(r.kind, r.uri, prior, tokens);
    ReadTargetKeeps(prior, tokens);
  }

  lemma ReadTargetKeeps(r: Request, tokens: seq<string>)
    requires |tokens| >= 3
    ensures ReadTarget(r, tokens).kind == tokens[0] && ReadTarget(r, tokens).message == r.message
  {
    hide UrlDecode, Tokens, ParamsOf;
  }

  // ---------- requests that arrive in parts ----------

  /** The start line has three parts and a protocol with one slash. */
  predicate GoodStartLine(h: string) {
    var tokens := Tokens(h, ' ');
    |tokens| >= 3 && |Tokens(tokens[2], '/')| == 2
  }

  /** How the parse of any text ends, and what it keeps of the message. */
  lemma Verdict(text: string)
    ensures var m := ParseHeader(EMPTY.message, text);
            var p := FromText(EMPTY, text);
            && p.status == (if m.status != ParseSuccess then m.status
                            else if !GoodStartLine(m.message.header) then ParseError
                            else LengthTest(m.message))
            && (p.status == ParseSuccess ==>
                  && p.request.kind == Tokens(m.message.header, ' ')[0]
                  && p.request.message.header == m.message.header
                  && p.request.message.body == m.message.body
                  && (forall k :: k in m.message.fields ==>
                                    k in p.request.message.fields
                                    && p.request.message.fields[k] == m.message.fields[k]))
  {
    hide ParseHeader, LengthTest, Tokens, ReadTarget, ReadForm, ReadCookies;
    var m := ParseHeader(EMPTY.message, text);
    LengthTestTouched(m.message);
    if m.status == ParseSuccess && GoodStartLine(m.message.header) {
      var r := EMPTY.(message := m.message);
      var tokens := Tokens(m.message.header, ' ');
      var proto := Tokens(tokens[2], '/');
      ReadTargetKeeps(r, tokens);
      ReadBodyKeeps(TouchField(ReadTarget(r, tokens).(proto := proto[0], version := proto[1]), "content-length"));
    }
  }

  lemma ReadBodyKeeps(r: Request)
    ensures var s := ReadCookies(ReadForm(r));
            && s.kind == r.kind && s.message.header == r.message.header && s.message.body == r.message.body
            && forall k :: k in r.message.fields ==>
                             k in s.message.fields && s.message.fields[k] == r.message.fields[k]
  {
    hide ParamsOf, CookiesOf;
  }

  lemma BodyIsShorter(text: string)
    requires ParseHeader(EMPTY.message, text).status == ParseSuccess
    ensures |ParseHeader(EMPTY.message, text).message.body| < |text|
  {
    hide Split, ReadFields;
  }

  lemma LengthTestTouched(m: Message)
    ensures LengthTest(m.(fields := Touch(m.fields, "content-length"))) == LengthTest(m)
  {
    hide Stoi;
  }

  /** A request that RFC 9112 allows is accepted with its type, its body and its fields,
      whatever the spelling of the field names. */
  lemma FullRequestSucceeds(start: string, fs: seq<FieldText>, body: string)
    requires !Contains(start, CRLF) && GoodStartLine(start) && forall f :: f in fs ==> IsLine(f)
    requires LengthMatches(Message(start, FieldsOf(fs, map[]), body))
    ensures var p := FromText(EMPTY, Written(start, fs, body));
            var fields := FieldsOf(fs, map[]);
            && p.status == ParseSuccess
            && p.request.message.body == body && p.request.kind == Tokens(start, ' ')[0]
            && (forall k :: k in fields ==>
                              k in p.request.message.fields && p.request.message.fields[k] == fields[k])
    ensures BodyEnds(Written(start, fs, body))
  {
    hide ParseHeader, FromText, Written, Tokens, LengthTest, FieldsOf, Contains;
    WriteThenParse(start, fs, body, EMPTY.message);
    Verdict(Written(start, fs, body));
    MatchingLengthPasses(Message(start, FieldsOf(fs, map[]), body));
  }

  /** The message says where its body ends, and the text ends there: there is no body, or its
      length is announced. */
  predicate BodyEnds(text: string) {
    var m := ParseHeader(EMPTY.message, text).message;
    m.body == "" || Stoi(Field(m, "content-length")) == IntValue(|m.body|)
  }

  /** No end marker in a part that stops before the marker's end. */
  lemma NoMarkerInPart(s: string, end: nat, k: nat)
    requires Find(s, HEADER_END, 0) == Some(end) && k < end + 4 && k <= |s|
    ensures Find(s[..k], HEADER_END, 0) == None
  {
    hide Find;
    assert s[..k] + s[k..] == s;
    var r := Find(s[..k], HEADER_END, 0);
    if r.Some? {
      OccursInFront(s[..k], s[k..], HEADER_END, r.value);
    }
  }

  lemma MarkerInPart(s: string, end: nat, k: nat)
    requires Find(s, HEADER_END, 0) == Some(end) && end + 4 <= k <= |s|
    ensures Find(s[..k], HEADER_END, 0) == Some(end)
  {
    hide Find, OccursAt;
    assert s[..k] + s[k..] == s;
    forall i: nat | i <= end
      ensures OccursAt(s[..k], HEADER_END, i) <==> OccursAt(s, HEADER_END, i)
    {
      OccursInFront(s[..k], s[k..], HEADER_END, i);
    }
    FindFirst(s[..k], HEADER_END, 0, end);
  }

  /** A part of an accepted text: before the end of the header it asks for more; behind it,
      the outcome is that of the length test on the part of the body. */
  lemma PartVerdict(text: string, k: nat)
    requires FromText(EMPTY, text).status == ParseSuccess && k < |text|
    ensures var m := ParseHeader(EMPTY.message, text).message;
            var head := |text| - |m.body|;
            && |m.body| < |text|
            && FromText(EMPTY, text[..k]).status
               == if k < head then ParseErrorAgain else LengthTest(m.(body := m.body[..k - head]))
  {
    hide Find, Split, ReadFields, LengthTest, FromText, Tokens;
    Verdict(text);
    Verdict(text[..k]);
    var end := Find(text, HEADER_END, 0).value;
    FoundInside(text, HEADER_END, end);
    if k < end + 4 {
      NoMarkerInPart(text, end, k);
    } else {
      MarkerInPart(text, end, k);
      assert text[..k][..end] == text[..end];
      assert text[..k][end + 4..] == text[end + 4..][..k - (end + 4)];
    }
  }

  /** Exactly when every proper part of an accepted text, wherever it is cut, asks for more:
      when the body ends where the text ends (sections 2.1 and 6.3 of RFC 9112). */
  lemma PartsWaitIff(text: string)
    requires FromText(EMPTY, text).status == ParseSuccess
    ensures BodyEnds(text)
            <==> forall k: nat :: k < |text| ==> FromText(EMPTY, text[..k]).status == ParseErrorAgain
  {
    hide ParseHeader, FromText, Stoi, Tokens;
    Verdict(text);
    BodyIsShorter(text);
    var m := ParseHeader(EMPTY.message, text).message;
    StoiOfNothing();
    if BodyEnds(text) {
      forall k: nat | k < |text|
        ensures FromText(EMPTY, text[..k]).status == ParseErrorAgain
      {
        PartVerdict(text, k);
      }
    } else {
      PartVerdict(text, |text| - 1);
    }
  }

  // ---------- parameters and cookies of an accepted request ----------

  /** Parameters that may stand in a query: none of their parts holds a question mark. */
  predicate QueryPart(s: string) {
    ParamPart(s) && '?' !in s
  }

  lemma {:induction false} QueryHasNoMark(params: map<string, string>, order: seq<string>)
    requires forall k :: k in order ==> k in params && QueryPart(k) && QueryPart(params[k])
    ensures '?' !in Join(ParamTexts(params, order), "&")
    ensures order != [] ==> Join(ParamTexts(params, order), "&") != ""
  {
    if order != [] {
      var t := order[0] + "=" + params[order[0]];
      assert order[0] in order;
      assert '?' !in t;
      QueryHasNoMark(params, order[1..]);
      assert ParamTexts(params, order)[1..] == ParamTexts(params, order[1..]);
    }
  }

  /** A GET target that decodes to a path, a question mark and parameters is read as just
      that path and those parameters. */
  lemma QueryIsRead(r: Request, tokens: seq<string>, path: string, params: map<string, string>,
                    order: seq<string>)
    requires |tokens| >= 3 && tokens[0] == "GET"
    requires path != "" && '?' !in path && params != map[] && Iterates(order, params)
    requires forall k :: k in params ==> QueryPart(k) && QueryPart(params[k])
    requires UrlDecode(tokens[1]) == path + "?" + Join(ParamTexts(params, order), "&")
    ensures ReadTarget(r, tokens).uri == path && ReadTarget(r, tokens).params == params
  {
    hide UrlDecode, Tokens, ParamsOf, ParamTexts;
    var query := Join(ParamTexts(params, order), "&");
    QueryHasNoMark(params, order);
    TokensCons(path, query, '?');
    TokensFree(query, '?');
    assert order != [] by {
      var k :| k in params;
      assert k in order;
    }
    ParamsComeBack(params, order);
  }

  const FORM := "application/x-www-form-urlencoded"

  /** The request behind an accepted text, part by part. */
  lemma AcceptedRequest(text: string)
    requires FromText(EMPTY, text).status == ParseSuccess
    ensures var m := ParseHeader(EMPTY.message, text).message;
            var tokens := Tokens(m.header, ' ');
            var r := FromText(EMPTY, text).request;
            && |tokens| >= 3
            && var target := ReadTarget(EMPTY.(message := m), tokens);
            && r.uri == target.uri
            && r.params == (if Field(m, "content-type") == FORM then ParamsOf(m.body) else target.params)
            && r.cookies == (if Field(m, "cookie") == "" then map[] else CookiesOf(Field(m, "cookie")))
  {
    hide ParseHeader, LengthTest, Tokens, ReadTarget, ParamsOf, CookiesOf;
    var m := ParseHeader(EMPTY.message, text).message;
    var tokens := Tokens(m.header, ' ');
    ReadTargetKeeps(EMPTY.(message := m), tokens);
    TargetKeepsCookies(EMPTY.(message := m), tokens);
  }

  lemma TargetKeepsCookies(r: Request, tokens: seq<string>)
    requires |tokens| >= 3
    ensures ReadTarget(r, tokens).cookies == r.cookies
  {
    hide UrlDecode, Tokens, ParamsOf;
  }

  /** The query of an accepted GET request gives its parameters, and no others. */
  lemma GetParamsAreRead(text: string, path: string, params: map<string, string>, order: seq<string>)
    requires path != "" && '?' !in path && params != map[] && Iterates(order, params)
    requires FromText(EMPTY, text).status == ParseSuccess
    requires var m := ParseHeader(EMPTY.message, text).message;
             var tokens := Tokens(m.header, ' ');
             && |tokens| >= 3 && tokens[0] == "GET" && Field(m, "content-type") != FORM
             && UrlDecode(tokens[1]) == path + "?" + Join(ParamTexts(params, order), "&")
    requires forall k :: k in params ==> QueryPart(k) && QueryPart(params[k])
    ensures FromText(EMPTY, text).request.uri == path
    ensures FromText(EMPTY, text).request.params == params
  {
    hide FromText, ParseHeader, Tokens, UrlDecode, ReadTarget, ParamTexts, QueryPart, Iterates;
    AcceptedRequest(text);
    var m := ParseHeader(EMPTY.message, text).message;
    QueryIsRead(EMPTY.(message := m), Tokens(m.header, ' '), path, params, order);
  }

  /** The body of an accepted form gives its parameters, and no others. */
  lemma FormParamsAreRead(text: string, params: map<string, string>, order: seq<string>)
    requires Iterates(order, params)
    requires FromText(EMPTY, text).status == ParseSuccess
    requires var m := ParseHeader(EMPTY.message, text).message;
             Field(m, "content-type") == FORM && m.body == Join(ParamTexts(params, order), "&")
    requires forall k :: k in params ==> ParamPart(k) && ParamPart(params[k])
    ensures FromText(EMPTY, text).request.params == params
  {
    hide FromText, ParseHeader, Tokens, ReadTarget, ParamTexts, ParamPart, Iterates, ParamsOf;
    AcceptedRequest(text);
    ParamsComeBack(params, order);
  }

  /** A cookie field gives the cookies that were written into it, and no others. */
  lemma CookiesAreRead(text: string, cookies: map<string, string>, order: seq<string>)
    requires Iterates(order, cookies)
    requires FromText(EMPTY, text).status == ParseSuccess
    requires Field(ParseHeader(EMPTY.message, text).message, "cookie")
             == Join(CookieTexts(cookies, order, ""), ";")
    requires forall k :: k in cookies ==> CookieName(k) && CookieValue(cookies[k])
    ensures FromText(EMPTY, text).request.cookies == cookies
  {
    hide FromText, ParseHeader, Tokens, ReadTarget, CookieTexts, CookieName, CookieValue, Iterates,
         CookiesOf;
    AcceptedRequest(text);
    CookiesComeBack(cookies, order);
    NoCookieText();
  }

  lemma NoCookieText()
    ensures CookiesOf("") == map[]
  {
    NoTokens("", ';');
  }

  /** What becomes of parameters that the object already holds: any type but GET clears them,
      and a GET target without a query leaves them. */
  lemma EarlierParams(r: Request, tokens: seq<string>)
    requires |tokens| >= 3
    ensures tokens[0] != "GET" ==> ReadTarget(r, tokens).params == map[]
    ensures tokens[0] == "GET" && UrlDecode(tokens[1]) != "" && '?' !in UrlDecode(tokens[1]) ==>
              ReadTarget(r, tokens).params == r.params
  {
    hide UrlDecode, Tokens, ParamsOf;
    var u := UrlDecode(tokens[1]);
    if '?' !in u {
      TokensFree(u, '?');
    }
  }

  /** Without a query and without a form there are no parameters. */
  lemma NoParamsAreRead(text: string)
    requires FromText(EMPTY, text).status == ParseSuccess
    requires var m := ParseHeader(EMPTY.message, text).message;
             var tokens := Tokens(m.header, ' ');
             && |tokens| >= 3 && Field(m, "content-type") != FORM
             && (tokens[0] != "GET" || '?' !in UrlDecode(tokens[1]))
    ensures FromText(EMPTY, text).request.params == map[]
  {
    hide FromText, ParseHeader, Tokens, UrlDecode, ParamsOf;
    AcceptedRequest(text);
    var m := ParseHeader(EMPTY.message, text).message;
    var u := UrlDecode(Tokens(m.header, ' ')[1]);
    if '?' !in u {
      TokensFree(u, '?');
    }
  }

  // ---------- announced lengths, as they are written ----------

  /** What an announced length does to a body: a number is waited for, one beyond 32 bits is
      ignored, and what does not begin with a number throws. */
  lemma LengthByText(m: Message, v: string)
    requires Field(m, "content-length") == v != ""
    ensures forall n | INT32_MIN <= n <= INT32_MAX && v == ToString(n) ::
              LengthTest(m) == if |m.body| < n then ParseErrorAgain else ParseSuccess
    ensures forall n | (n > INT32_MAX || n < INT32_MIN) && v == ToString(n) ::
              LengthTest(m) == ParseSuccess
    ensures !IsSpace(v[0]) && v[0] != '-' && v[0] != '+' && !IsDigit(v[0]) ==>
              LengthTest(m) == Status.Threw
  {
    hide Stoi, ToString;
    forall n | v == ToString(n)
      ensures INT32_MIN <= n <= INT32_MAX ==>
                LengthTest(m) == if |m.body| < n then ParseErrorAgain else ParseSuccess
      ensures n > INT32_MAX || n < INT32_MIN ==> LengthTest(m) == ParseSuccess
    {
      StoiOfNumeral(n);
    }
    if !IsSpace(v[0]) && v[0] != '-' && v[0] != '+' && !IsDigit(v[0]) {
      StoiOfWord(v);
    }
  }
}
