/** `http::response::to_string` and `from_string` of src/http/http_response.cpp. */
module HttpResponses {
  import opened Bytes
  import opened StringUtil
  import opened Url
  import opened Decimals
  import opened HttpParsers
  import C = HttpCookies

  datatype Response = Response(
    message: Message, proto: string, version: string, status: int, reason: string,
    cookies: map<string, C.Cookie>)

  datatype Ending = Done(status: Status) | ReadPastEnd

  datatype ResponseParsed = ResponseParsed(ending: Ending, response: Response)

  const SET_COOKIE := "set-cookie"

  const DEFAULT_FIELDS: map<string, string> :=
    map["server" := "apache", "content-type" := "text/html", "content-length" := "0"]

  /** A response object as it is constructed. */
  function NewResponse(reason: string): Response {
    Response(Message("", DEFAULT_FIELDS, ""), "HTTP", "1.1", 404, reason, map[])
  }

  // ---------- to_string ----------

  function StatusLine(r: Response, reasonOf: int -> string): string {
    r.proto + "/" + r.version + " " + ToString(r.status) + " " + reasonOf(r.status)
  }

  /** Each cookie overwrites the one before: the last one in iteration order is sent. */
  function PutCookies(fields: map<string, string>, cookies: seq<C.Cookie>): map<string, string>
    decreases |cookies|
  {
    if cookies == [] then fields
    else PutCookies(fields[SET_COOKIE := C.PrintCookie(cookies[0])], cookies[1..])
  }

  /** The message that `to_string` leaves in the object and prints; `cookies` are the cookies
      in iteration order. */
  function Completed(r: Response, cookies: seq<C.Cookie>, reasonOf: int -> string): Message {
    Message(StatusLine(r, reasonOf), PutCookies(r.message.fields, cookies), r.message.body)
  }

  // ---------- from_string ----------

  /** The third token and those behind it, with single spaces between them. */
  function ReasonOf(tokens: seq<string>): string
    requires |tokens| >= 3
  {
    Join(tokens[2..], " ")
  }

  function ReadCookie(r: Response): ResponseParsed {
    var m := r.message.(fields := Touch(r.message.fields, SET_COOKIE));
    var s := r.(message := m);
    if Field(m, SET_COOKIE) == "" then ResponseParsed(Done(ParseSuccess), s)
    else match C.ParseCookie(C.NEW, Field(m, SET_COOKIE))
      case Accepted(c) => ResponseParsed(Done(ParseSuccess), s.(cookies := s.cookies[c.name := c]))
      case Rejected => ResponseParsed(Done(ParseSuccess), s)
      case Threw => ResponseParsed(Done(Status.Threw), s)
      case OutOfBounds => ResponseParsed(ReadPastEnd, s)
  }

  function ReadBodyAndCookie(r: Response): ResponseParsed {
    var s := r.(message := r.message.(fields := Touch(r.message.fields, "content-length")));
    if LengthTest(s.message) != ParseSuccess then ResponseParsed(Done(LengthTest(s.message)), s)
    else ReadCookie(s)
  }

  function FromText(prior: Response, text: string): ResponseParsed {
    var p := ParseHeader(prior.message, text);
    var r := prior.(message := p.message);
    if p.status != ParseSuccess then ResponseParsed(Done(p.status), r)
    else
      var tokens := Tokens(r.message.header, ' ');
      if |tokens| < 3 then ResponseParsed(Done(ParseError), r)
      else
        var proto := Tokens(tokens[0], '/');
        if |proto| != 2 then ResponseParsed(Done(ParseError), r)
        else
          var s := r.(proto := proto[0], version := proto[1]);
          match Stoi(tokens[1])
          case OutOfRange => ResponseParsed(Done(ParseError), s)
          case InvalidArgument => ResponseParsed(Done(Status.Threw), s)
          case IntValue(n) => ReadBodyAndCookie(s.(status := n, reason := ReasonOf(tokens)))
  }

  // ---------- the object ----------

  class HttpResponse {
    const parser: Parser
    var proto: string
    var version: string
    var status: int
    var reason: string
    var cookies: map<string, C.Cookie>

    function View(): Response
      reads this, parser
    {
      Response(parser.View(), proto, version, status, reason, cookies)
    }

    constructor (reason: string)
      ensures fresh(parser)
      ensures View() == NewResponse(reason)
      ensures parser.headerFields
              == map["server" := "apache", "content-type" := "text/html", "content-length" := "0"]
    {
      parser := new Parser();
      proto, version, status, cookies := "HTTP", "1.1", 404, map[];
      this.reason := reason;
      new;
      parser.headerFields := DEFAULT_FIELDS;
    }

    method ToText(order: seq<string>, cookieOrder: seq<C.Cookie>, reasonOf: int -> string)
      returns (r: string)
      requires forall k :: k in order ==> k in PutCookies(View().message.fields, cookieOrder)
      modifies parser
      ensures View() == old(View()).(message := Completed(old(View()), cookieOrder, reasonOf))
      ensures r == Print(View().message, order)
    {
      hide ToString;
      parser.header := proto + "/" + version + " " + ToString(status) + " " + reasonOf(status);
      for i := 0 to |cookieOrder|
        invariant parser.header == StatusLine(old(View()), reasonOf) && parser.body == old(parser.body)
        invariant PutCookies(parser.headerFields, cookieOrder[i..])
                  == PutCookies(old(parser.headerFields), cookieOrder)
      {
        assert cookieOrder[i..][1..] == cookieOrder[i + 1..];
        var text := C.CookieToString(cookieOrder[i]);
        parser.headerFields := parser.headerFields[SET_COOKIE := text];
      }
      r := parser.HeaderToString(order);
    }

    method Lookup(k: string) returns (v: string)
      modifies parser
      ensures View() == old(View()).(message := old(View()).message.(fields := Touch(old(View()).message.fields, k)))
      ensures v == Field(View().message, k)
    {
      if k !in parser.headerFields {
        parser.headerFields := parser.headerFields[k := ""];
      }
      v := parser.headerFields[k];
    }

    method JoinReason(tokens: seq<string>) returns (s: string)
      requires |tokens| >= 3
      ensures s == ReasonOf(tokens)
    {
      s := tokens[2];
      assert tokens[2..3] == [tokens[2]];
      for i := 3 to |tokens|
        invariant s == Join(tokens[2..i], " ")
      {
        JoinAppend(tokens[2..i], tokens[i], " ");
        assert tokens[2..i + 1] == tokens[2..i] + [tokens[i]];
        s := s + " " + tokens[i];
      }
      assert tokens[2..|tokens|] == tokens[2..];
    }

    method FromString(text: string) returns (ending: Ending)
      modifies this, parser
      ensures ResponseParsed(ending, View()) == FromText(old(View()), text)
    {
      hide ParseHeader, Stoi, Tokens, ReasonOf, ReadBodyAndCookie;
      var parsed := parser.HeaderFromString(text);
      if parsed != ParseSuccess {
        return Done(parsed);
      }
      var headerTokens := TokenizeChar(parser.header, ' ');
      if |headerTokens| < 3 {
        return Done(ParseError);
      }
      var protoTokens := TokenizeChar(headerTokens[0], '/');
      if |protoTokens| != 2 {
        return Done(ParseError);
      }
      proto := protoTokens[0];
      version := protoTokens[1];
      match Stoi(headerTokens[1]) {
        case OutOfRange =>
          return Done(ParseError);
        case InvalidArgument =>
          return Done(Status.Threw);
        case IntValue(n) =>
          status := n;
      }
      reason := JoinReason(headerTokens);
      ending := ReadRest();
    }

    method ReadRest() returns (ending: Ending)
      modifies this`cookies, parser
      ensures ResponseParsed(ending, View()) == ReadBodyAndCookie(old(View()))
    {
      hide Stoi, C.ParseCookie;
      var length := Lookup("content-length");
      if LengthTest(parser.View()) != ParseSuccess {
        return Done(LengthTest(parser.View()));
      }
      var text := Lookup(SET_COOKIE);
      if text != "" {
        var o := C.CookieFromString(C.NEW, text);
        match o {
          case Accepted(c) =>
            cookies := cookies[c.name := c];
          case Rejected =>
          case Threw =>
            return Done(Status.Threw);
          case OutOfBounds =>
            return ReadPastEnd;
        }
      }
      return Done(ParseSuccess);
    }
  }

  // ---------- round trip ----------

  /** A status text made of words with single spaces between them, as every entry of the
      status table is. */
  ghost predicate IsPhrase(s: string, words: seq<string>) {
    words != [] && (forall w :: w in words ==> OneToken(w, ' ')) && s == Join(words, " ")
  }

  /** The status line splits into protocol, number and words. */
  lemma StatusLineTokens(r: Response, reasonOf: int -> string, words: seq<string>)
    requires OneToken(r.proto, ' ') && OneToken(r.version, ' ') && OneToken(r.proto, '/') && OneToken(r.version, '/')
    requires INT32_MIN <= r.status <= INT32_MAX && IsPhrase(reasonOf(r.status), words)
    ensures var target := r.proto + "/" + r.version;
            var tokens := Tokens(StatusLine(r, reasonOf), ' ');
            && tokens == [target, ToString(r.status)] + words
            && Tokens(target, '/') == [r.proto, r.version]
            && ReasonOf(tokens) == reasonOf(r.status)
            && Stoi(tokens[1]) == IntValue(r.status)
  {
    hide Tokens, ToString, Stoi, Join;
    var target := r.proto + "/" + r.version;
    var number := ToString(r.status);
    TokensCons(r.proto, r.version, '/');
    TokensFree(r.version, '/');
    StoiToString(r.status);
    NumberIsWord(r.status);
    assert ' ' !in target;
    var phrase := reasonOf(r.status);
    TokensJoin(words, ' ');
    TokensCons(number, phrase, ' ');
    TokensCons(target, number + " " + phrase, ' ');
    assert StatusLine(r, reasonOf) == target + " " + (number + " " + phrase);
    assert [target] + ([number] + words) == [target, number] + words;
    assert ([target, number] + words)[2..] == words;
  }

  lemma NumberIsWord(n: int)
    ensures OneToken(ToString(n), ' ')
  {
    ToStringChars(n);
    var s := ToString(n);
    assert s != "";
    forall i | 0 <= i < |s|
      ensures s[i] != ' '
    {
    }
  }

  /** The last cookie in iteration order is the one that is sent. */
  lemma {:induction false} LastCookieIsSent(fields: map<string, string>, cookies: seq<C.Cookie>)
    requires cookies != []
    ensures PutCookies(fields, cookies)
            == fields[SET_COOKIE := C.PrintCookie(cookies[|cookies| - 1])]
    decreases |cookies|
  {
    hide C.PrintCookie;
    if |cookies| > 1 {
      LastCookieIsSent(fields[SET_COOKIE := C.PrintCookie(cookies[0])], cookies[1..]);
    }
  }

  /** The cookies of an object that has read a response with these cookies. */
  function CookiesAfter(prior: map<string, C.Cookie>, cookies: seq<C.Cookie>): map<string, C.Cookie> {
    if cookies == [] then prior
    else
      var c := cookies[|cookies| - 1];
      prior[c.name := Restored(c)]
  }

  /** The message as the receiving object holds it: its own fields, overwritten. */
  function Received(prior: Response, m: Message): Message {
    m.(fields := prior.message.fields + m.fields)
  }

  /** A response comes back from its text, into an object that may hold other fields and
      cookies: protocol, version, status, status text, body, all fields, and the last of its
      cookies, but for that cookie's SameSite and version. */
  lemma ResponseRoundTrip(r: Response, cookies: seq<C.Cookie>, order: seq<string>,
                          reasonOf: int -> string, words: seq<string>, prior: Response)
    requires OneToken(r.proto, ' ') && OneToken(r.version, ' ') && OneToken(r.proto, '/') && OneToken(r.version, '/')
    requires INT32_MIN <= r.status <= INT32_MAX && IsPhrase(reasonOf(r.status), words)
    requires cookies != [] ==> Carriable(cookies[|cookies| - 1])
    requires var m := Completed(r, cookies, reasonOf);
             && Printable(m) && Iterates(order, m.fields) && LengthMatches(Received(prior, m))
             && (cookies == [] ==> Field(Received(prior, m), SET_COOKIE) == "")
    ensures var m := Completed(r, cookies, reasonOf);
            var p := FromText(prior, Print(m, order));
            && p.ending == Done(ParseSuccess)
            && p.response.proto == r.proto && p.response.version == r.version
            && p.response.status == r.status && p.response.reason == reasonOf(r.status)
            && p.response.message.body == r.message.body
            && Holds(p.response.message.fields, prior.message.fields + m.fields)
            && p.response.cookies == CookiesAfter(prior.cookies, cookies)
  {
    hide ParseHeader, Print, Tokens, Stoi, ReasonOf, ReadBodyAndCookie, StatusLine, Printable,
         LengthMatches, Holds, Carriable, CookiesAfter, C.PrintCookie;
    var m := Completed(r, cookies, reasonOf);
    PrintThenParse(m, order, prior.message);
    StatusLineTokens(r, reasonOf, words);
    if cookies != [] {
      LastCookieIsSent(r.message.fields, cookies);
    }
    ReadsBackBodyAndCookie(Response(Received(prior, m), r.proto, r.version, r.status,
                                    reasonOf(r.status), prior.cookies), cookies);
  }

  ghost predicate Holds(m: map<string, string>, fields: map<string, string>) {
    forall k :: k in fields ==> k in m && m[k] == fields[k]
  }

  /** So it does into an object as the client constructs it: a field that the response does
      not set keeps its default, and an announced length of 0 stands if none is sent. */
  lemma ResponseIntoNewObject(r: Response, cookies: seq<C.Cookie>, order: seq<string>,
                              reasonOf: int -> string, words: seq<string>, reason: string)
    requires OneToken(r.proto, ' ') && OneToken(r.version, ' ') && OneToken(r.proto, '/') && OneToken(r.version, '/')
    requires INT32_MIN <= r.status <= INT32_MAX && IsPhrase(reasonOf(r.status), words)
    requires cookies != [] ==> Carriable(cookies[|cookies| - 1])
    requires cookies == [] ==> SET_COOKIE !in r.message.fields
    requires var m := Completed(r, cookies, reasonOf);
             Printable(m) && Iterates(order, m.fields) && LengthMatches(m)
    ensures var m := Completed(r, cookies, reasonOf);
            var p := FromText(NewResponse(reason), Print(m, order));
            && p.ending == Done(ParseSuccess)
            && p.response.status == r.status && p.response.message.body == r.message.body
            && Holds(p.response.message.fields, DEFAULT_FIELDS + m.fields)
            && p.response.cookies == CookiesAfter(map[], cookies)
  {
    hide Print, Stoi, StatusLine, Printable, Holds, Carriable, CookiesAfter, FromText, PutCookies;
    var m := Completed(r, cookies, reasonOf);
    assert PutCookies(r.message.fields, []) == r.message.fields by {
      NoCookies(r.message.fields);
    }
    NoLengthIsZero();
    ResponseRoundTrip(r, cookies, order, reasonOf, words, NewResponse(reason));
  }

  lemma NoCookies(fields: map<string, string>)
    ensures PutCookies(fields, []) == fields
  {
  }

  lemma NoLengthIsZero()
    ensures Stoi("0") == IntValue(0)
  {
    assert ToString(0) == "0";
    StoiToString(0);
  }

  /** A cookie that survives: sound, with a plain value. */
  predicate Carriable(c: C.Cookie) {
    C.Sound(c) && ByteString(c.value) && c.value != "" && Plain(c.value)
  }

  function Restored(c: C.Cookie): C.Cookie {
    c.(sameSite := "", version := 0)
  }

  lemma ReadsBackBodyAndCookie(s: Response, cookies: seq<C.Cookie>)
    requires LengthMatches(s.message)
    requires cookies == [] ==> Field(s.message, SET_COOKIE) == ""
    requires cookies != [] ==>
               var c := cookies[|cookies| - 1];
               Carriable(c) && Field(s.message, SET_COOKIE) == C.PrintCookie(c)
    ensures var p := ReadBodyAndCookie(s);
            && p.ending == Done(ParseSuccess)
            && p.response.(message := s.message, cookies := s.cookies) == s
            && p.response.message.body == s.message.body
            && Holds(p.response.message.fields, s.message.fields)
            && p.response.cookies == CookiesAfter(s.cookies, cookies)
  {
    hide Stoi, LengthTest, C.ParseCookie, C.PrintCookie, Carriable;
    PassesLengthTest(s.message);
    if cookies != [] {
      CookieComesBack(cookies[|cookies| - 1]);
    }
  }

  lemma PassesLengthTest(m: Message)
    requires LengthMatches(m)
    ensures LengthTest(m.(fields := Touch(m.fields, "content-length"))) == ParseSuccess
  {
    hide Stoi;
  }

  lemma CookieComesBack(c: C.Cookie)
    requires Carriable(c)
    ensures C.PrintCookie(c) != ""
    ensures C.ParseCookie(C.NEW, C.PrintCookie(c)) == C.Accepted(Restored(c))
    ensures Restored(c).name == c.name
  {
    C.ValueRestoredIff(c);
    assert C.PrintCookie(c) != "" by {
      assert C.NameAndValue(c) != "";
    }
  }

  /** What the status line of any response decides: with fewer than three parts, or without a
      protocol and a version, it is wrong; a status beyond 32 bits is wrong too, and a word in
      its place throws. */
  lemma StatusLineDecides(prior: Response, text: string)
    requires ParseHeader(prior.message, text).status == ParseSuccess
    ensures var tokens := Tokens(ParseHeader(prior.message, text).message.header, ' ');
            var p := FromText(prior, text);
            && (|tokens| < 3 || |Tokens(tokens[0], '/')| != 2 ==> p.ending == Done(ParseError))
            && (|tokens| >= 3 && |Tokens(tokens[0], '/')| == 2 ==>
                  && p.response.proto == Tokens(tokens[0], '/')[0]
                  && p.response.version == Tokens(tokens[0], '/')[1]
                  && (forall n | tokens[1] == ToString(n) ::
                        if INT32_MIN <= n <= INT32_MAX
                        then p.response.status == n && p.response.reason == Join(tokens[2..], " ")
                        else p.ending == Done(ParseError) && p.response.status == prior.status)
                  && (tokens[1] != "" && IsAlnum(tokens[1][0]) && !IsDigit(tokens[1][0]) ==>
                        p.ending == Done(Status.Threw) && p.response.status == prior.status))
  {
    hide ParseHeader, Tokens, Stoi, ToString, ReadBodyAndCookie, Join;
    var m := ParseHeader(prior.message, text).message;
    var tokens := Tokens(m.header, ' ');
    if |tokens| >= 3 && |Tokens(tokens[0], '/')| == 2 {
      forall n | tokens[1] == ToString(n)
        ensures Stoi(tokens[1]) == if INT32_MIN <= n <= INT32_MAX then IntValue(n) else OutOfRange
      {
        StoiOfNumeral(n);
      }
      if tokens[1] != "" && IsAlnum(tokens[1][0]) && !IsDigit(tokens[1][0]) {
        StoiOfWord(tokens[1]);
      }
      match Stoi(tokens[1])
      case IntValue(n) =>
        BodyAndCookieKeep(Response(m, Tokens(tokens[0], '/')[0], Tokens(tokens[0], '/')[1], n,
                                   ReasonOf(tokens), prior.cookies));
      case _ =>
    }
  }

  /** Reading on changes only the fields and the cookies. */
  lemma BodyAndCookieKeep(r: Response)
    ensures var s := ReadBodyAndCookie(r).response;
            && s.proto == r.proto && s.version == r.version && s.status == r.status && s.reason == r.reason
            && s.message.header == r.message.header && s.message.body == r.message.body
  {
    hide Stoi, C.ParseCookie, LengthTest;
  }

  /** A cookie field that holds a cookie with an attribute that lacks its value leaves the
      response accepted and the cookies as they were; one without an equals sign in its first
      part is read past its end. */
  lemma WrongCookie(r: Response, name: string, v: string, key: string)
    requires LengthMatches(r.message)
    requires C.GoodName(name) && v != "" && '=' !in v && ';' !in v
    requires key in {"Expires", "Max-Age", "Domain", "Path", "SameSite", "Version"}
    ensures Field(r.message, SET_COOKIE) == name + "=" + v + ";" + key ==>
              var p := ReadBodyAndCookie(r);
              p.ending == Done(ParseSuccess) && p.response.cookies == r.cookies
    ensures Field(r.message, SET_COOKIE) == name ==> ReadBodyAndCookie(r).ending == ReadPastEnd
  {
    hide Stoi, LengthTest, C.ParseCookie, C.GoodName;
    PassesLengthTest(r.message);
    CookieIsRejected(name, v, key);
    NameAlonePastEnd(name);
    assert name != "" && name + "=" + v + ";" + key != "" by {
      NameIsThere(name);
    }
  }

  lemma NameIsThere(name: string)
    requires C.GoodName(name)
    ensures name != "" && '=' !in name && ';' !in name
  {
    var cs := COOKIE_SEPARATORS;
    assert cs[8] == ';' && cs[16] == '=';
  }

  lemma CookieIsRejected(name: string, v: string, key: string)
    requires C.GoodName(name) && v != "" && '=' !in v && ';' !in v
    requires key in {"Expires", "Max-Age", "Domain", "Path", "SameSite", "Version"}
    ensures C.ParseCookie(C.NEW, name + "=" + v + ";" + key) == C.Rejected
  {
    hide Tokens, C.ReadPart, C.GoodName, LowerAll;
    NameIsThere(name);
    var first := name + "=" + v;
    KeyIsPlain(key);
    TokensCons(first, key, ';');
    TokensFree(key, ';');
    assert Tokens(first + [';'] + key, ';') == [first, key];
    assert first + ";" + key == name + "=" + v + ";" + key;
    FirstPartIsRead(name, v);
    var o := C.ReadPart(C.NEW, true, first);
    C.FlagArrives(o.cookie, "", key);
    assert "" + key == key;
    assert C.ReadPart(o.cookie, false, key) == C.Rejected;
    assert [first, key][1..] == [key];
    assert C.ReadParts(C.NEW, true, [first, key]) == C.ReadParts(o.cookie, false, [key]);
  }

  lemma FirstPartIsRead(name: string, v: string)
    requires C.GoodName(name) && v != "" && '=' !in v
    ensures C.ReadPart(C.NEW, true, name + "=" + v).Accepted?
  {
    hide Tokens, UrlDecode, Without, CharsOf, C.GoodName;
    NameIsThere(name);
    C.PairTokens(name, v);
  }

  lemma KeyIsPlain(key: string)
    requires key in {"Expires", "Max-Age", "Domain", "Path", "SameSite", "Version"}
    ensures key != "" && ';' !in key && forall i :: 0 <= i < |key| ==> IsAlnum(key[i]) || key[i] == '-'
    ensures LowerAll(key) in {"expires", "max-age", "domain", "path", "samesite", "version"}
  {
    C.Spellings();
    assert LowerAll("Version") == "version";
  }

  lemma NameAlonePastEnd(name: string)
    requires C.GoodName(name)
    ensures C.ParseCookie(C.NEW, name) == C.OutOfBounds
  {
    hide Tokens, C.GoodName;
    NameIsThere(name);
    TokensFree(name, ';');
    TokensFree(name, '=');
  }
}
