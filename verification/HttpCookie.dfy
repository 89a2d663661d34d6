/** `http::response_cookie` of src/http/http_response.cpp. */
module HttpCookies {
  import opened Bytes
  import opened StringUtil
  import opened Url
  import opened Decimals

  datatype Cookie = Cookie(
    name: string, value: string, expireDate: string, maxAge: int, domain: string, path: string,
    secure: bool, httpOnly: bool, sameSite: string, version: int)

  /** A cookie object as it is constructed. */
  const NEW := Cookie("", "", "", -1, "", "", false, false, "", 0)

  /** How `from_string` ends: true, false, a `std::invalid_argument` that leaves it, or a
      read past the end of a vector (a first part without a value). */
  datatype Outcome = Accepted(cookie: Cookie) | Rejected | Threw | OutOfBounds

  // ---------- printing ----------

  /** The attributes that follow the value. */
  datatype Attribute =
    | Expires(v: string) | MaxAge(n: int) | Domain(v: string) | Path(v: string)
    | Secure | HttpOnly | SameSite(v: string)

  function TextOf(a: Attribute): string {
    match a
    case Expires(v) => "Expires" + "=" + v
    case MaxAge(n) => "Max-Age" + "=" + ToString(n)
    case Domain(v) => "Domain" + "=" + v
    case Path(v) => "Path" + "=" + v
    case Secure => "Secure"
    case HttpOnly => "HttpOnly"
    case SameSite(v) => "SameSite" + "=" + v
  }

  function If(present: bool, a: Attribute): seq<Attribute> {
    if present then [a] else []
  }

  /** The seven attributes in the order in which they are printed, and whether they are. */
  function Slot(c: Cookie, i: nat): seq<Attribute>
    requires i < 7
  {
    match i
    case 0 => If(c.expireDate != "", Expires(c.expireDate))
    case 1 => If(c.maxAge >= 0, MaxAge(c.maxAge))
    case 2 => If(c.domain != "", Domain(c.domain))
    case 3 => If(c.path != "", Path(c.path))
    case 4 => If(c.secure, Secure)
    case 5 => If(c.httpOnly, HttpOnly)
    case _ => If(c.sameSite != "", SameSite(c.sameSite))
  }

  function Upto(c: Cookie, k: nat): seq<Attribute>
    requires k <= 7
  {
    if k == 0 then [] else Upto(c, k - 1) + Slot(c, k - 1)
  }

  function Attributes(c: Cookie): seq<Attribute> {
    Upto(c, 7)
  }

  /** Each attribute behind its separator. */
  function Tail(attributes: seq<Attribute>): string {
    if attributes == [] then ""
    else Tail(attributes[..|attributes| - 1]) + ";" + TextOf(attributes[|attributes| - 1])
  }

  function NameAndValue(c: Cookie): string {
    c.name + "=" + UrlEncode(c.value)
  }

  function PrintCookie(c: Cookie): string {
    NameAndValue(c) + Tail(Attributes(c))
  }

  lemma TailOne(attributes: seq<Attribute>, a: Attribute)
    ensures Tail(attributes + [a]) == Tail(attributes) + (";" + TextOf(a))
  {
    hide TextOf;
    assert (attributes + [a])[..|attributes|] == attributes;
    Assoc(Tail(attributes), ";", TextOf(a));
  }

  lemma TailMore(attributes: seq<Attribute>, present: bool, a: Attribute)
    ensures Tail(attributes + If(present, a)) == Tail(attributes) + if present then ";" + TextOf(a) else ""
  {
    hide Tail, TextOf;
    if present {
      TailOne(attributes, a);
    } else {
      assert attributes + [] == attributes;
      assert Tail(attributes) + "" == Tail(attributes);
    }
  }

  /** The printed cookie, spelled out: its name and value, then each attribute that is present,
      under its own name and with its own value. */
  function SlotSpelling(c: Cookie, i: nat): string
    requires i < 7
  {
    match i
    case 0 => if c.expireDate != "" then ";Expires=" + c.expireDate else ""
    case 1 => if c.maxAge >= 0 then ";Max-Age=" + ToString(c.maxAge) else ""
    case 2 => if c.domain != "" then ";Domain=" + c.domain else ""
    case 3 => if c.path != "" then ";Path=" + c.path else ""
    case 4 => if c.secure then ";Secure" else ""
    case 5 => if c.httpOnly then ";HttpOnly" else ""
    case _ => if c.sameSite != "" then ";SameSite=" + c.sameSite else ""
  }

  function SpelledUpto(c: Cookie, k: nat): string
    requires k <= 7
  {
    if k == 0 then c.name + "=" + UrlEncode(c.value) else SpelledUpto(c, k - 1) + SlotSpelling(c, k - 1)
  }

  lemma Glue(name: string, v: string)
    ensures ";" + (name + "=" + v) == ";" + name + "=" + v
  {
    Assoc(";", name + "=", v);
    Assoc(";", name, "=");
  }

  lemma SpelledNames(v: string)
    ensures ";" + TextOf(Expires(v)) == ";Expires=" + v && ";" + TextOf(Domain(v)) == ";Domain=" + v
    ensures ";" + TextOf(Path(v)) == ";Path=" + v && ";" + TextOf(SameSite(v)) == ";SameSite=" + v
    ensures ";" + TextOf(Secure) == ";Secure" && ";" + TextOf(HttpOnly) == ";HttpOnly"
  {
    Glue("Expires", v);
    Glue("Domain", v);
    Glue("Path", v);
    Glue("SameSite", v);
    assert ";" + "Expires" + "=" == ";Expires=" && ";" + "Domain" + "=" == ";Domain=";
    assert ";" + "Path" + "=" == ";Path=" && ";" + "SameSite" + "=" == ";SameSite=";
    assert ";" + "Secure" == ";Secure" && ";" + "HttpOnly" == ";HttpOnly";
  }

  lemma SpelledAge(n: int)
    ensures ";" + TextOf(MaxAge(n)) == ";Max-Age=" + ToString(n)
  {
    hide ToString;
    Glue("Max-Age", ToString(n));
    assert ";" + "Max-Age" + "=" == ";Max-Age=";
  }

  lemma SlotIsSpelled(c: Cookie, i: nat)
    requires i < 7
    ensures SlotSpelling(c, i) == if Slot(c, i) == [] then "" else ";" + TextOf(Slot(c, i)[0])
    ensures |Slot(c, i)| <= 1
  {
    hide TextOf, ToString;
    SpelledAge(c.maxAge);
    SpelledNames(c.expireDate);
    SpelledNames(c.domain);
    SpelledNames(c.path);
    SpelledNames(c.sameSite);
  }

  lemma {:induction false} PrintedSpelling(c: Cookie, k: nat)
    requires k <= 7
    ensures NameAndValue(c) + Tail(Upto(c, k)) == SpelledUpto(c, k)
  {
    hide UrlEncode, ToString, Tail, TextOf, Slot, SlotSpelling;
    if k == 0 {
      EmptyTail();
      assert NameAndValue(c) + "" == NameAndValue(c);
    } else {
      PrintedSpelling(c, k - 1);
      SlotIsSpelled(c, k - 1);
      var slot := Slot(c, k - 1);
      if slot == [] {
        assert Upto(c, k - 1) + slot == Upto(c, k - 1);
        assert SpelledUpto(c, k - 1) + "" == SpelledUpto(c, k - 1);
      } else {
        TailOne(Upto(c, k - 1), slot[0]);
        assert slot == [slot[0]];
        Assoc(NameAndValue(c), Tail(Upto(c, k - 1)), ";" + TextOf(slot[0]));
      }
    }
  }

  lemma EmptyTail()
    ensures Tail([]) == ""
  {
  }

  /** What `to_string` prints. */
  lemma PrintsSpelled(c: Cookie)
    ensures PrintCookie(c) == SpelledUpto(c, 7)
  {
    hide SpelledUpto, NameAndValue, Tail, Upto;
    PrintedSpelling(c, 7);
  }

  /** Appends an attribute if it is present. */
  method Put(r: string, ghost c: Cookie, ghost k: nat, present: bool, a: Attribute) returns (r': string)
    requires k < 7 && Slot(c, k) == If(present, a)
    requires r == NameAndValue(c) + Tail(Upto(c, k))
    ensures r' == NameAndValue(c) + Tail(Upto(c, k + 1))
  {
    hide Tail, TextOf, Slot;
    TailMore(Upto(c, k), present, a);
    r' := r;
    if present {
      Assoc(NameAndValue(c), Tail(Upto(c, k)), ";" + TextOf(a));
      r' := r + (";" + TextOf(a));
    }
  }

  method CookieToString(c: Cookie) returns (r: string)
    ensures r == PrintCookie(c)
  {
    hide UrlEncode, TextOf, If;
    var value := UrlEncodeString(c.value);
    r := c.name + "=" + value;
    assert r == NameAndValue(c) + Tail(Upto(c, 0));
    hide NameAndValue, Tail, Upto;
    r := Put(r, c, 0, c.expireDate != "", Expires(c.expireDate));
    r := Put(r, c, 1, c.maxAge >= 0, MaxAge(c.maxAge));
    r := Put(r, c, 2, c.domain != "", Domain(c.domain));
    r := Put(r, c, 3, c.path != "", Path(c.path));
    r := Put(r, c, 4, c.secure, Secure);
    r := Put(r, c, 5, c.httpOnly, HttpOnly);
    r := Put(r, c, 6, c.sameSite != "", SameSite(c.sameSite));
  }

  // ---------- parsing ----------

  function KeyOf(flag: seq<string>): string
    requires flag != []
  {
    Without(flag[0], CharsOf(COOKIE_SEPARATORS))
  }

  predicate Quoted(v: string) {
    |v| > 2 && v[0] == '"' && v[|v| - 1] == '"'
  }

  /** The first part: name and value. */
  function ReadName(c: Cookie, flag: seq<string>): Outcome
    requires flag != []
  {
    if |flag| < 2 then OutOfBounds
    else if Quoted(flag[1]) then
      Accepted(c.(name := KeyOf(flag), value := flag[1][1..|flag[1]| - 1]))
    else Accepted(c.(name := KeyOf(flag), value := UrlDecode(flag[1])))
  }

  /** A number that is out of range is reported and ignored. */
  function ReadInt(v: string, current: int): Option<int> {
    match Stoi(v)
    case IntValue(n) => Some(n)
    case OutOfRange => Some(current)
    case InvalidArgument => None
  }

  /** A later part: an attribute, known or not. */
  function ReadAttribute(c: Cookie, flag: seq<string>): Outcome
    requires flag != []
  {
    var key := LowerAll(KeyOf(flag));
    if key == "expires" then if |flag| < 2 then Rejected else Accepted(c.(expireDate := flag[1]))
    else if key == "max-age" then
      if |flag| < 2 then Rejected
      else match ReadInt(flag[1], c.maxAge)
        case None => Threw
        case Some(n) => Accepted(c.(maxAge := n))
    else if key == "domain" then if |flag| < 2 then Rejected else Accepted(c.(domain := flag[1]))
    else if key == "path" then if |flag| < 2 then Rejected else Accepted(c.(path := flag[1]))
    else if key == "secure" then Accepted(c.(secure := true))
    else if key == "httponly" then Accepted(c.(httpOnly := true))
    else if key == "samesite" then if |flag| < 2 then Rejected else Accepted(c)
    else if key == "version" then
      if |flag| < 2 then Rejected
      else match ReadInt(flag[1], c.version)
        case None => Threw
        case Some(n) => Accepted(c.(version := n))
    else Accepted(c)
  }

  function ReadPart(c: Cookie, first: bool, part: string): Outcome {
    var flag := Tokens(part, '=');
    if flag == [] then Rejected
    else if first then ReadName(c, flag) else ReadAttribute(c, flag)
  }

  function ReadParts(c: Cookie, first: bool, parts: seq<string>): Outcome
    decreases |parts|
  {
    if parts == [] then Accepted(c)
    else
      var o := ReadPart(c, first, parts[0]);
      if o.Accepted? then ReadParts(o.cookie, false, parts[1..]) else o
  }

  /** The last look at the value: version 1 must be quoted, any other is decoded again. */
  function Finish(c: Cookie): Outcome {
    if c.version == 1 then
      if Quoted(c.value) then Accepted(c.(value := c.value[1..|c.value| - 1])) else Rejected
    else Accepted(c.(value := UrlDecode(c.value)))
  }

  function ParseCookie(c: Cookie, s: string): Outcome {
    var o := ReadParts(c, true, Tokens(s, ';'));
    if o.Accepted? then Finish(o.cookie) else o
  }

  method ReadOne(c: Cookie, first: bool, part: string) returns (o: Outcome)
    ensures o == ReadPart(c, first, part)
  {
    hide Tokens, Without, UrlDecode, CharsOf, Stoi, LowerAll;
    var flag := TokenizeChar(part, '=');
    if flag == [] {
      return Rejected;
    }
    var key := StripAll(flag[0], COOKIE_SEPARATORS);
    if first {
      if |flag| < 2 {
        return OutOfBounds;
      }
      var val := flag[1];
      if |val| > 2 && val[0] == '"' && val[|val| - 1] == '"' {
        return Accepted(c.(name := key, value := val[1..|val| - 1]));
      }
      var decoded := UrlDecodeString(val);
      return Accepted(c.(name := key, value := decoded));
    }
    return ReadAttribute(c, flag);
  }

  method CookieFromString(c: Cookie, s: string) returns (o: Outcome)
    ensures o == ParseCookie(c, s)
  {
    hide ReadPart, Tokens, UrlDecode;
    var flags := TokenizeChar(s, ';');
    var cur := c;
    for i := 0 to |flags|
      invariant ReadParts(c, true, flags) == ReadParts(cur, i == 0, flags[i..])
    {
      assert flags[i..][1..] == flags[i + 1..];
      var one := ReadOne(cur, i == 0, flags[i]);
      if !one.Accepted? {
        return one;
      }
      cur := one.cookie;
    }
    if cur.version == 1 {
      var v := cur.value;
      if |v| > 2 && v[0] == '"' && v[|v| - 1] == '"' {
        return Accepted(cur.(value := v[1..|v| - 1]));
      }
      return Rejected;
    }
    var decoded := UrlDecodeString(cur.value);
    return Accepted(cur.(value := decoded));
  }

  // ---------- round trip ----------

  /** An attribute value that survives between separators. */
  predicate AttributeValue(s: string) {
    ';' !in s && '=' !in s
  }

  predicate GoodName(s: string) {
    s != "" && forall c :: c in s ==> c !in COOKIE_SEPARATORS
  }

  /** What can be printed and read back, but for the value, SameSite and the version. */
  predicate Sound(c: Cookie) {
    && GoodName(c.name)
    && AttributeValue(c.expireDate) && AttributeValue(c.domain) && AttributeValue(c.path)
    && AttributeValue(c.sameSite)
    && -1 <= c.maxAge <= INT32_MAX
  }

  function Texts(attributes: seq<Attribute>): (ts: seq<string>)
    ensures |ts| == |attributes|
  {
    seq(|attributes|, i requires 0 <= i < |attributes| => TextOf(attributes[i]))
  }

  lemma {:induction false} PrintedIsJoined(head: string, attributes: seq<Attribute>)
    ensures head + Tail(attributes) == Join([head] + Texts(attributes), ";")
  {
    hide TextOf;
    if attributes == [] {
      assert [head] + Texts(attributes) == [head];
    } else {
      var n := |attributes| - 1;
      PrintedIsJoined(head, attributes[..n]);
      var ts := [head] + Texts(attributes[..n]);
      var t := TextOf(attributes[n]);
      JoinAppend(ts, t, ";");
      assert ts + [t] == [head] + Texts(attributes);
      assert head + (Tail(attributes[..n]) + ";" + t) == (head + Tail(attributes[..n])) + ";" + t;
    }
  }

  /** What reading an attribute back does to a cookie. */
  function Effect(c: Cookie, a: Attribute): Cookie {
    match a
    case Expires(v) => c.(expireDate := v)
    case MaxAge(n) => c.(maxAge := n)
    case Domain(v) => c.(domain := v)
    case Path(v) => c.(path := v)
    case Secure => c.(secure := true)
    case HttpOnly => c.(httpOnly := true)
    case SameSite(_) => c
  }

  function Effects(c: Cookie, attributes: seq<Attribute>): Cookie
    decreases |attributes|
  {
    if attributes == [] then c else Effects(Effect(c, attributes[0]), attributes[1..])
  }

  predicate GoodAttribute(a: Attribute) {
    match a
    case MaxAge(n) => 0 <= n <= INT32_MAX
    case Secure => true
    case HttpOnly => true
    case _ => a.v != "" && AttributeValue(a.v)
  }

  /** The separators leave an attribute's name alone, and case folding gives the spelling
      that is looked for. */
  lemma KeyIs(flag: seq<string>, key: string)
    requires flag != [] && flag[0] == key
    requires forall i :: 0 <= i < |key| ==> IsAlnum(key[i]) || key[i] == '-'
    ensures KeyOf(flag) == key
  {
    forall c | c in key
      ensures c !in CharsOf(COOKIE_SEPARATORS)
    {
      var i :| 0 <= i < |key| && key[i] == c;
    }
    WithoutAbsent(key, CharsOf(COOKIE_SEPARATORS));
  }

  lemma Spellings()
    ensures LowerAll("Expires") == "expires" && LowerAll("Max-Age") == "max-age"
    ensures LowerAll("Domain") == "domain" && LowerAll("Path") == "path"
    ensures LowerAll("Secure") == "secure" && LowerAll("HttpOnly") == "httponly"
    ensures LowerAll("SameSite") == "samesite"
  {
  }

  /** A name, an equals sign and a value without separators are two tokens. */
  lemma PairTokens(name: string, v: string)
    requires name != "" && '=' !in name && v != "" && '=' !in v
    ensures Tokens(name + "=" + v, '=') == [name, v]
  {
    TokensCons(name, v, '=');
    TokensFree(v, '=');
  }

  lemma ReadsBack(c: Cookie, a: Attribute)
    requires GoodAttribute(a)
    ensures ReadPart(c, false, TextOf(a)) == Accepted(Effect(c, a))
  {
    hide Tokens, KeyOf, LowerAll, Stoi, ToString;
    Spellings();
    match a
    case Expires(v) =>
      PairTokens("Expires", v);
      KeyIs(["Expires", v], "Expires");
    case MaxAge(n) =>
      NumberText(n);
      PairTokens("Max-Age", ToString(n));
      KeyIs(["Max-Age", ToString(n)], "Max-Age");
    case Domain(v) =>
      PairTokens("Domain", v);
      KeyIs(["Domain", v], "Domain");
    case Path(v) =>
      PairTokens("Path", v);
      KeyIs(["Path", v], "Path");
    case Secure =>
      TokensFree("Secure", '=');
      KeyIs(["Secure"], "Secure");
    case HttpOnly =>
      TokensFree("HttpOnly", '=');
      KeyIs(["HttpOnly"], "HttpOnly");
    case SameSite(v) =>
      PairTokens("SameSite", v);
      KeyIs(["SameSite", v], "SameSite");
  }

  lemma NumberText(n: int)
    requires 0 <= n <= INT32_MAX
    ensures Stoi(ToString(n)) == IntValue(n) && ToString(n) != ""
    ensures '=' !in ToString(n) && ';' !in ToString(n)
  {
    hide ToString, Stoi;
    StoiToString(n);
    ToStringChars(n);
    assert ToString(n) != "" by {
      ToStringNonEmpty(n);
    }
  }

  lemma ToStringNonEmpty(n: int)
    ensures ToString(n) != ""
  {
  }

  lemma {:induction false} AllReadBack(c: Cookie, attributes: seq<Attribute>)
    requires forall a :: a in attributes ==> GoodAttribute(a)
    ensures ReadParts(c, false, Texts(attributes)) == Accepted(Effects(c, attributes))
    decreases |attributes|
  {
    hide ReadPart, Effect, TextOf, GoodAttribute;
    if attributes != [] {
      var a := attributes[0];
      assert a in attributes;
      ReadsBack(c, a);
      assert Texts(attributes)[1..] == Texts(attributes[1..]);
      AllReadBack(Effect(c, a), attributes[1..]);
    }
  }

  lemma {:induction false} EffectsOfMore(c: Cookie, attributes: seq<Attribute>, more: seq<Attribute>)
    ensures Effects(c, attributes + more) == Effects(Effects(c, attributes), more)
    decreases |attributes|
  {
    hide Effect;
    if attributes == [] {
      assert attributes + more == more;
    } else {
      assert (attributes + more)[1..] == attributes[1..] + more;
      EffectsOfMore(Effect(c, attributes[0]), attributes[1..], more);
    }
  }

  /** What is restored after the first `k` attributes. */
  function Restored(start: Cookie, c: Cookie, k: nat): Cookie {
    Cookie(start.name, start.value,
           if k > 0 then c.expireDate else "",
           if k > 1 then c.maxAge else -1,
           if k > 2 then c.domain else "",
           if k > 3 then c.path else "",
           k > 4 && c.secure, k > 5 && c.httpOnly, "", 0)
  }

  lemma EffectsOfSlot(start: Cookie, c: Cookie, k: nat)
    requires k < 7 && c.maxAge >= -1
    ensures Effects(Restored(start, c, k), Slot(c, k)) == Restored(start, c, k + 1)
  {
    if Slot(c, k) != [] {
      assert Slot(c, k)[1..] == [];
    }
  }

  /** All attributes together restore every field they print. */
  lemma {:induction false} EffectsOfAll(start: Cookie, c: Cookie, k: nat)
    requires start == NEW.(name := start.name, value := start.value)
    requires c.maxAge >= -1 && k <= 7
    ensures Effects(start, Upto(c, k)) == Restored(start, c, k)
  {
    hide Slot, Effect;
    if k > 0 {
      EffectsOfAll(start, c, k - 1);
      EffectsOfMore(start, Upto(c, k - 1), Slot(c, k - 1));
      EffectsOfSlot(start, c, k - 1);
    }
  }

  lemma {:induction false} GoodAttributes(c: Cookie, k: nat)
    requires Sound(c) && k <= 7
    ensures forall a :: a in Upto(c, k) ==> GoodAttribute(a)
  {
    if k > 0 {
      GoodAttributes(c, k - 1);
      assert forall a :: a in Slot(c, k - 1) ==> GoodAttribute(a);
    }
  }

  /** What is printed has no separator inside a part. */
  lemma PartsAreFree(c: Cookie)
    requires Sound(c)
    ensures forall t :: t in [NameAndValue(c)] + Texts(Attributes(c)) ==> t != "" && ';' !in t
  {
    hide NameAndValue, TextOf, GoodAttribute, Sound, Upto;
    var ts := [NameAndValue(c)] + Texts(Attributes(c));
    GoodAttributes(c, 7);
    forall i | 0 <= i < |ts|
      ensures ts[i] != "" && ';' !in ts[i]
    {
      if i == 0 {
        NameAndValueIsFree(c);
      } else {
        var a := Attributes(c)[i - 1];
        assert a in Attributes(c) && ts[i] == TextOf(a);
        AttributeIsFree(a);
      }
    }
  }

  lemma NameAndValueIsFree(c: Cookie)
    requires Sound(c)
    ensures NameAndValue(c) != "" && ';' !in NameAndValue(c)
  {
    hide UrlEncode;
    EncodedIsSafe(CStr(c.value));
    assert ';' in COOKIE_SEPARATORS;
    EncodeUnfold(c.value);
  }

  lemma AttributeIsFree(a: Attribute)
    requires GoodAttribute(a)
    ensures TextOf(a) != "" && ';' !in TextOf(a)
  {
    if a.MaxAge? {
      NumberText(a.n);
    }
  }

  lemma EncodeUnfold(s: string)
    ensures UrlEncode(s) == EncodeLoop(CStr(s))
  {
  }

  /** The first part gives the name back and the value up to its first NUL; a value that is
      empty up to there leaves the source reading past the end of its tokens. */
  lemma NameReadsBack(c: Cookie)
    requires Sound(c) && ByteString(c.value)
    ensures ReadPart(NEW, true, NameAndValue(c))
            == if CStr(c.value) == "" then OutOfBounds
               else Accepted(NEW.(name := c.name, value := CStr(c.value)))
  {
    hide Tokens, UrlDecode, CharsOf, Without, CStr, EncodeLoop;
    var enc := UrlEncode(c.value);
    EncodedIsSafe(CStr(c.value));
    assert '=' in COOKIE_SEPARATORS;
    assert '=' !in c.name && '=' !in enc && '"' !in enc;
    TokensCons(c.name, enc, '=');
    TokensFree(enc, '=');
    DecodeEncode(c.value);
    WithoutAbsent(c.name, CharsOf(COOKIE_SEPARATORS)) by {
      InChars(COOKIE_SEPARATORS);
    }
    if CStr(c.value) != "" {
      assert enc != "";
      assert enc[0] in enc;
    } else {
      EncodeEmpty(CStr(c.value));
    }
  }

  lemma InChars(cs: string)
    ensures forall c :: c in CharsOf(cs) <==> c in cs
  {
  }

  /** Round trip: every field but SameSite and the version comes back; the value comes back
      decoded once more than it was encoded.  Without a value there is nothing to read. */
  lemma CookieRoundTrip(c: Cookie)
    requires Sound(c) && ByteString(c.value)
    ensures ParseCookie(NEW, PrintCookie(c))
            == if CStr(c.value) == "" then OutOfBounds
               else Accepted(c.(value := UrlDecode(CStr(c.value)), sameSite := "", version := 0))
  {
    hide Tokens, UrlDecode, ReadPart, Upto, Tail, NameAndValue, Effects, CStr, Sound;
    var parts := [NameAndValue(c)] + Texts(Attributes(c));
    PrintedIsJoined(NameAndValue(c), Attributes(c));
    PartsAreFree(c);
    TokensJoin(parts, ';');
    NameReadsBack(c);
    assert parts[1..] == Texts(Attributes(c));
    GoodAttributes(c, 7);
    if CStr(c.value) != "" {
      var start := NEW.(name := c.name, value := CStr(c.value));
      AllReadBack(start, Attributes(c));
      SoundAge(c);
      EffectsOfAll(start, c, 7);
    }
  }

  lemma SoundAge(c: Cookie)
    requires Sound(c)
    ensures c.maxAge >= -1
  {
  }

  /** The value comes back exactly if it is not empty and has no '+', no '%' and no NUL. */
  lemma ValueRestoredIff(c: Cookie)
    requires Sound(c) && ByteString(c.value)
    ensures ParseCookie(NEW, PrintCookie(c)) == Accepted(c.(sameSite := "", version := 0))
            <==> c.value != "" && Plain(c.value)
  {
    hide ParseCookie, PrintCookie, UrlDecode;
    CookieRoundTrip(c);
    DecodeFixesIffPlain(c.value);
    DecodeFixesIffPlain(CStr(c.value));
    var v := CStr(c.value);
    if '\0' in c.value {
      assert |UrlDecode(v)| <= |v| < |c.value|;
    }
  }

  // ---------- attributes as they arrive ----------

  /** A part of a cookie that begins with spaces, has its name in any case, and a value. */
  lemma KeyArrives(gap: string, name: string, v: string)
    requires forall i :: 0 <= i < |gap| ==> gap[i] == ' '
    requires name != "" && forall i :: 0 <= i < |name| ==> IsAlnum(name[i]) || name[i] == '-'
    requires v != "" && '=' !in v
    ensures Tokens(gap + name + "=" + v, '=') == [gap + name, v]
    ensures Tokens(gap + name, '=') == [gap + name]
    ensures KeyOf([gap + name, v]) == name && KeyOf([gap + name]) == name
  {
    hide Tokens, Without, CharsOf;
    assert '=' !in gap + name by {
      forall i | 0 <= i < |gap + name|
        ensures (gap + name)[i] != '='
      {
      }
    }
    PairTokens(gap + name, v);
    TokensFree(gap + name, '=');
    WithoutConcat(gap, name, CharsOf(COOKIE_SEPARATORS));
    SpacesVanish(gap);
    KeyIs([name], name);
  }

  lemma {:induction false} SpacesVanish(gap: string)
    requires forall i :: 0 <= i < |gap| ==> gap[i] == ' '
    ensures Without(gap, CharsOf(COOKIE_SEPARATORS)) == ""
  {
    SeparatorsAre(' ');
    if gap != "" {
      SpacesVanish(gap[1..]);
    }
  }

  /** What an attribute with a value does, whatever the case of its name: section 5.2 of RFC
      6265, except that SameSite is not stored. */
  lemma AttributeArrives(c: Cookie, gap: string, name: string, v: string)
    requires forall i :: 0 <= i < |gap| ==> gap[i] == ' '
    requires name != "" && forall i :: 0 <= i < |name| ==> IsAlnum(name[i]) || name[i] == '-'
    requires v != "" && '=' !in v
    ensures var o := ReadPart(c, false, gap + name + "=" + v);
            var key := LowerAll(name);
            && (key == "expires" ==> o == Accepted(c.(expireDate := v)))
            && (key == "domain" ==> o == Accepted(c.(domain := v)))
            && (key == "path" ==> o == Accepted(c.(path := v)))
            && (key == "secure" ==> o == Accepted(c.(secure := true)))
            && (key == "httponly" ==> o == Accepted(c.(httpOnly := true)))
            && (key == "samesite" ==> o == Accepted(c))
            && (key !in {"expires", "max-age", "domain", "path", "secure", "httponly", "samesite", "version"} ==>
                  o == Accepted(c))
  {
    hide Tokens, KeyOf, LowerAll, Stoi;
    KeyArrives(gap, name, v);
  }

  /** A number is stored if it fits 32 bits, ignored if it does not, and a word in its place
      throws. */
  lemma NumberArrives(c: Cookie, gap: string, name: string, v: string)
    requires forall i :: 0 <= i < |gap| ==> gap[i] == ' '
    requires name != "" && forall i :: 0 <= i < |name| ==> IsAlnum(name[i]) || name[i] == '-'
    requires v != "" && '=' !in v && LowerAll(name) in {"max-age", "version"}
    ensures var o := ReadPart(c, false, gap + name + "=" + v);
            && (forall n | v == ToString(n) ::
                  o == if !(INT32_MIN <= n <= INT32_MAX) then Accepted(c)
                       else if LowerAll(name) == "max-age" then Accepted(c.(maxAge := n))
                       else Accepted(c.(version := n)))
            && (IsAlnum(v[0]) && !IsDigit(v[0]) ==> o == Threw)
  {
    hide Tokens, KeyOf, LowerAll, Stoi, ToString;
    KeyArrives(gap, name, v);
    forall n | v == ToString(n)
      ensures Stoi(v) == if INT32_MIN <= n <= INT32_MAX then IntValue(n) else OutOfRange
    {
      StoiOfNumeral(n);
    }
    if IsAlnum(v[0]) && !IsDigit(v[0]) {
      StoiOfWord(v);
    }
  }

  /** An attribute that stands without a value. */
  lemma FlagArrives(c: Cookie, gap: string, name: string)
    requires forall i :: 0 <= i < |gap| ==> gap[i] == ' '
    requires name != "" && forall i :: 0 <= i < |name| ==> IsAlnum(name[i]) || name[i] == '-'
    ensures var o := ReadPart(c, false, gap + name);
            var key := LowerAll(name);
            && (key == "secure" ==> o == Accepted(c.(secure := true)))
            && (key == "httponly" ==> o == Accepted(c.(httpOnly := true)))
            && (key in {"expires", "max-age", "domain", "path", "samesite", "version"} ==> o == Rejected)
            && (key !in {"expires", "max-age", "domain", "path", "secure", "httponly", "samesite", "version"} ==>
                  o == Accepted(c))
  {
    hide Tokens, KeyOf, LowerAll, Stoi;
    KeyArrives(gap, name, "x");
  }

  /** A value in quotes is taken as it stands between them, and not decoded here. */
  lemma QuotedValue(c: Cookie, name: string, v: string)
    requires GoodName(name) && v != "" && '=' !in v
    ensures ReadPart(c, true, name + "=" + ("\"" + v + "\"")) == Accepted(c.(name := name, value := v))
  {
    hide Tokens, Without, CharsOf, UrlDecode;
    var quoted := "\"" + v + "\"";
    assert quoted[1..|quoted| - 1] == v && '=' !in quoted;
    assert '=' in COOKIE_SEPARATORS;
    PairTokens(name, quoted);
    WithoutAbsent(name, CharsOf(COOKIE_SEPARATORS)) by {
      InChars(COOKIE_SEPARATORS);
    }
  }

  /** A cookie of version 1 is accepted only if quotes are left around its value once the
      outer ones are gone, as nothing but doubled quotes leaves them; every other value is
      decoded at the end. */
  lemma VersionOne(c: Cookie, v: string)
    ensures c.version == 1 && c.value == v && (|v| <= 2 || v[0] != '"' || v[|v| - 1] != '"') ==>
              Finish(c) == Rejected
    ensures c.version == 1 && v != "" && c.value == "\"" + v + "\"" ==>
              Finish(c) == Accepted(c.(value := v))
    ensures c.version != 1 && c.value == v ==> Finish(c) == Accepted(c.(value := UrlDecode(v)))
  {
    hide UrlDecode;
    var quoted := "\"" + v + "\"";
    assert quoted[1..|quoted| - 1] == v;
  }
}
