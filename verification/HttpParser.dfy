/** `http::parser` of src/http/http_parser.cpp: a start line, header fields and a body. */
module HttpParsers {
  import opened Bytes
  import opened StringUtil
  import opened Url
  import opened Decimals

  /** `Threw` stands for an exception that leaves the function. */
  datatype Status = ParseSuccess | ParseError | ParseErrorAgain | Threw

  datatype Message = Message(header: string, fields: map<string, string>, body: string)

  /** A parse: how it ended and what the object holds then. */
  datatype Parsed = Parsed(status: Status, message: Message)

  const HEADER_END := "\r\n\r\n"

  datatype FieldsRead = FieldsRead(fields: map<string, string>, threw: bool)

  /** The loop over the field lines: a line without a colon ends it, and a line that ends in
      its first colon makes `substr` throw. */
  function ReadFields(lines: seq<string>, m: map<string, string>): FieldsRead {
    if lines == [] then FieldsRead(m, false)
    else
      var l := lines[0];
      var d := IndexOf(l, ':', 0);
      if d == |l| then FieldsRead(m, false)
      else if d + 2 > |l| then FieldsRead(m, true)
      else ReadFields(lines[1..], m[LowerAll(l[..d]) := l[d + 2..]])
  }

  /** `header_from_string` on an object that holds `prior`. */
  function ParseHeader(prior: Message, http: string): Parsed {
    var end := Find(http, HEADER_END, 0);
    if end.None? then Parsed(ParseErrorAgain, prior)
    else
      var lines := Split(http[..end.value], CRLF);
      var read := ReadFields(lines[1..], prior.fields);
      Parsed(if read.threw then Threw else ParseSuccess,
             Message(lines[0], read.fields, http[end.value + 4..]))
  }

  function FieldLine(k: string, v: string): string {
    k + ": " + v
  }

  /** `header_to_string` with the fields in iteration order `order`. */
  function Print(m: Message, order: seq<string>): string
    requires forall k :: k in order ==> k in m.fields
  {
    m.header + CRLF + PrintFields(m.fields, order) + CRLF + m.body
  }

  function PrintFields(fields: map<string, string>, order: seq<string>): string
    requires forall k :: k in order ==> k in fields
  {
    if order == [] then ""
    else FieldLine(order[0], fields[order[0]]) + CRLF + PrintFields(fields, order[1..])
  }

  /** `order` runs over the keys of a map, each of them once, as an iteration does. */
  ghost predicate Iterates(order: seq<string>, fields: map<string, string>) {
    && (forall k :: k in order <==> k in fields)
    && (forall i, j :: 0 <= i < j < |order| ==> order[i] != order[j])
  }

  // ---------- what requests and responses share ----------

  /** `m_header_fields[k]` on a missing key inserts the empty string. */
  function Touch(m: map<string, string>, k: string): map<string, string> {
    if k in m then m else m[k := ""]
  }

  function Field(m: Message, k: string): string {
    if k in m.fields then m.fields[k] else ""
  }

  /** The content-length test of both `from_string`s: an unparsable number throws, one that is
      out of range is ignored. */
  function LengthTest(m: Message): Status {
    var v := Field(m, "content-length");
    if v == "" then ParseSuccess
    else match Stoi(v)
      case InvalidArgument => Threw
      case OutOfRange => ParseSuccess
      case IntValue(n) => if n > 0 && |m.body| < n then ParseErrorAgain else ParseSuccess
  }

  /** The announced length is the length of the body; without one there is no body. */
  predicate LengthMatches(m: Message) {
    var v := Field(m, "content-length");
    if v == "" then m.body == "" else Stoi(v) == IntValue(|m.body|)
  }

  // ---------- the object ----------

  class Parser {
    var header: string
    var headerFields: map<string, string>
    var body: string

    function View(): Message
      reads this
    {
      Message(header, headerFields, body)
    }

    constructor ()
      ensures View() == Message("", map[], "")
    {
      header, headerFields, body := "", map[], "";
    }

    method HeaderFromString(http: string) returns (status: Status)
      modifies this
      ensures Parsed(status, View()) == ParseHeader(old(View()), http)
    {
      hide Find, Split;
      var end := Find(http, HEADER_END, 0);
      if end == None {
        return ParseErrorAgain;
      }
      body := http[end.value + 4..];
      var lines := Tokenize(http[..end.value], CRLF);
      header := lines[0];
      var i := 1;
      while i < |lines|
        invariant 1 <= i <= |lines|
        invariant body == http[end.value + 4..] && header == lines[0]
        invariant ReadFields(lines[1..], old(headerFields)) == ReadFields(lines[i..], headerFields)
      {
        var l := lines[i];
        assert lines[i..][1..] == lines[i + 1..];
        var d := IndexOf(l, ':', 0);
        if d == |l| {
          break;
        }
        if d + 2 > |l| {
          return Threw;
        }
        headerFields := headerFields[LowerAll(l[..d]) := l[d + 2..]];
        i := i + 1;
      }
      return ParseSuccess;
    }

    method HeaderToString(order: seq<string>) returns (r: string)
      requires forall k :: k in order ==> k in headerFields
      ensures r == Print(View(), order)
    {
      r := header + CRLF;
      ghost var start := r;
      for i := 0 to |order|
        invariant r + PrintFields(headerFields, order[i..]) == start + PrintFields(headerFields, order)
      {
        var k := order[i];
        ghost var rest := PrintFields(headerFields, order[i + 1..]);
        assert order[i..][1..] == order[i + 1..];
        assert r + (FieldLine(k, headerFields[k]) + CRLF + rest)
            == (r + FieldLine(k, headerFields[k]) + CRLF) + rest;
        r := r + FieldLine(k, headerFields[k]) + CRLF;
      }
      assert r == start + PrintFields(headerFields, order);
      r := r + CRLF;
      r := r + body;
    }
  }

  // ---------- printing, then parsing ----------

  /** A field that survives: its key is in lower case and has no colon, and neither part
      holds a line break. */
  predicate PrintableField(k: string, v: string) {
    LowerAll(k) == k && ':' !in k && !Contains(k, CRLF) && !Contains(v, CRLF)
  }

  ghost predicate Printable(m: Message) {
    && !Contains(m.header, CRLF)
    && forall k :: k in m.fields ==> PrintableField(k, m.fields[k])
  }

  function FieldLines(fields: map<string, string>, order: seq<string>): (ls: seq<string>)
    requires forall k :: k in order ==> k in fields
    ensures |ls| == |order|
  {
    seq(|order|, i requires 0 <= i < |order| => FieldLine(order[i], fields[order[i]]))
  }

  /** Where a line break is, character by character. */
  lemma CrlfAt(s: string, i: nat)
    ensures OccursAt(s, CRLF, i) <==> i + 2 <= |s| && s[i] == '\r' && s[i + 1] == '\n'
  {
    if i + 2 <= |s| {
      assert s[i..i + 2] == [s[i], s[i + 1]];
    }
  }

  /** Two strings free of line breaks stay so when joined unless the break falls between. */
  lemma NoBreakConcat(s: string, t: string)
    requires !Contains(s, CRLF) && !Contains(t, CRLF)
    requires s == "" || t == "" || s[|s| - 1] != '\r' || t[0] != '\n'
    ensures !Contains(s + t, CRLF)
  {
    var u := s + t;
    forall i: nat | i <= |u| && OccursAt(u, CRLF, i)
      ensures false
    {
      CrlfAt(u, i);
      CrlfAt(s, i);
      if i >= |s| {
        CrlfAt(t, i - |s|);
      }
    }
  }

  lemma FieldLineFree(k: string, v: string)
    requires PrintableField(k, v)
    ensures !Contains(FieldLine(k, v), CRLF)
    ensures IndexOf(FieldLine(k, v), ':', 0) == |k|
  {
    hide Contains;
    assert !Contains(": ", CRLF) by {
      NoBreakInSeparator();
    }
    NoBreakConcat(k, ": ");
    NoBreakConcat(k + ": ", v);
    var l := FieldLine(k, v);
    forall j | 0 <= j < |k|
      ensures l[j] != ':'
    {
      assert l[j] == k[j] && k[j] in k;
    }
    assert l[|k|] == ':';
  }

  lemma NoBreakInSeparator()
    ensures !Contains(": ", CRLF)
  {
    forall i: nat
      ensures !OccursAt(": ", CRLF, i)
    {
      CrlfAt(": ", i);
    }
  }

  /** What is printed in front of the body: the lines joined, then the end marker. */
  lemma {:induction false} PrintedHead(header: string, fields: map<string, string>, order: seq<string>)
    requires forall k :: k in order ==> k in fields
    ensures header + CRLF + PrintFields(fields, order) + CRLF
            == Join([header] + FieldLines(fields, order), CRLF) + HEADER_END
    decreases |order|
  {
    assert HEADER_END == CRLF + CRLF;
    var ls := FieldLines(fields, order);
    if order == [] {
      assert [header] + ls == [header];
      assert header + CRLF + "" + CRLF == header + HEADER_END;
    } else {
      var first := FieldLine(order[0], fields[order[0]]);
      PrintedHead(first, fields, order[1..]);
      assert ls == [first] + FieldLines(fields, order[1..]);
      assert ([header] + ls)[1..] == ls;
      var rest := PrintFields(fields, order[1..]);
      var j := Join(ls, CRLF);
      assert header + CRLF + (first + CRLF + rest) + CRLF == header + CRLF + (first + CRLF + rest + CRLF);
      assert header + CRLF + (j + HEADER_END) == (header + CRLF + j) + HEADER_END;
    }
  }

  /** A line that is not empty and has no break does not begin with a break, whatever is
      written behind it. */
  lemma NoBreakAtFront(t: string, rest: string)
    requires t != "" && !Contains(t, CRLF) && (rest != "" ==> rest[0] != '\n')
    ensures !OccursAt(t + rest, CRLF, 0)
  {
    CrlfAt(t + rest, 0);
    CrlfAt(t, 0);
  }

  /** The end marker is a break followed by a break. */
  lemma MarkerIsTwoBreaks(s: string, i: nat)
    ensures OccursAt(s, HEADER_END, i) <==> OccursAt(s, CRLF, i) && OccursAt(s, CRLF, i + 2)
  {
    if i + 4 <= |s| {
      assert s[i..i + 4] == s[i..i + 2] + s[i + 2..i + 4];
      assert HEADER_END == CRLF + CRLF;
      assert s[i..i + 4][..2] == s[i..i + 2] && s[i..i + 4][2..] == s[i + 2..i + 4];
      assert HEADER_END[..2] == CRLF && HEADER_END[2..] == CRLF;
    }
  }

  lemma NoMarkerInLine(t: string, rest: string, i: nat)
    requires !Contains(t, CRLF) && !OccursAt(rest, CRLF, 0) && i < |t| + 2
    ensures !OccursAt(t + CRLF + rest, HEADER_END, i)
  {
    hide Contains, OccursAt;
    var s := t + CRLF + rest;
    MarkerIsTwoBreaks(s, i);
    if i < |t| {
      CrlfUnbordered();
      FirstDelimiter(t, CRLF, rest);
    } else if i == |t| {
      assert s == (t + CRLF) + rest && |t + CRLF| == |t| + 2;
      OccursBehind(t + CRLF, rest, CRLF, 0);
    } else {
      CrlfAt(s, i);
    }
  }

  /** Behind a line free of breaks and its own break, the marker is found where the text
      after that break has it. */
  lemma MarkerBehindLine(t: string, rest: string)
    requires !Contains(t, CRLF) && !OccursAt(rest, CRLF, 0)
    ensures Find(rest, HEADER_END, 0).None? ==> Find(t + CRLF + rest, HEADER_END, 0) == None
    ensures Find(rest, HEADER_END, 0).Some? ==>
              Find(t + CRLF + rest, HEADER_END, 0) == Some(|t| + 2 + Find(rest, HEADER_END, 0).value)
  {
    hide Contains, Find, OccursAt;
    var s := t + CRLF + rest;
    assert s == (t + CRLF) + rest && |t + CRLF| == |t| + 2;
    forall i: nat | i < |t| + 2
      ensures !OccursAt(s, HEADER_END, i)
    {
      NoMarkerInLine(t, rest, i);
    }
    forall i: nat
      ensures OccursAt(s, HEADER_END, |t| + 2 + i) <==> OccursAt(rest, HEADER_END, i)
    {
      OccursBehind(t + CRLF, rest, HEADER_END, i);
    }
    FindShifted(s, rest, HEADER_END, |t| + 2);
  }

  lemma OccursBehind(front: string, rest: string, d: string, i: nat)
    ensures OccursAt(front + rest, d, |front| + i) <==> OccursAt(rest, d, i)
  {
    if i + |d| <= |rest| {
      assert (front + rest)[|front| + i..|front| + i + |d|] == rest[i..i + |d|];
    }
  }

  lemma FindShifted(s: string, t: string, d: string, k: nat)
    requires forall i: nat :: i < k ==> !OccursAt(s, d, i)
    requires forall i: nat :: OccursAt(s, d, k + i) <==> OccursAt(t, d, i)
    ensures Find(t, d, 0).None? ==> Find(s, d, 0) == None
    ensures Find(t, d, 0).Some? ==> Find(s, d, 0) == Some(k + Find(t, d, 0).value)
  {
    hide Find, OccursAt;
    var a, b := Find(s, d, 0), Find(t, d, 0);
    if a.Some? {
      assert OccursAt(s, d, a.value) && a.value >= k;
      assert OccursAt(t, d, a.value - k) by {
        assert OccursAt(s, d, k + (a.value - k));
      }
    }
    if b.Some? {
      assert OccursAt(s, d, k + b.value);
    }
  }

  /** The end marker is found where it was printed, not before. */
  lemma {:induction false} MarkerFound(ts: seq<string>, rest: string)
    requires ts != [] && forall t :: t in ts ==> !Contains(t, CRLF)
    requires forall i :: 0 < i < |ts| ==> ts[i] != ""
    ensures Find(Join(ts, CRLF) + HEADER_END + rest, HEADER_END, 0) == Some(|Join(ts, CRLF)|)
  {
    hide Contains, Find, OccursAt;
    var t := ts[0];
    assert t in ts;
    if |ts| == 1 {
      MarkerAfterLine(t, rest);
    } else {
      var us := ts[1..];
      MarkerFound(us, rest);
      var tail := Join(us, CRLF) + HEADER_END + rest;
      assert us[0] in ts;
      JoinBegins(us, HEADER_END + rest);
      var more :| tail == us[0] + more && more != "" && more[0] == '\r';
      NoBreakAtFront(us[0], more);
      MarkerBehindLine(t, tail);
      assert Join(ts, CRLF) + HEADER_END + rest == t + CRLF + tail;
    }
  }

  lemma JoinBegins(us: seq<string>, rest: string)
    requires us != [] && rest != "" && rest[0] == '\r'
    ensures exists more: string :: Join(us, CRLF) + rest == us[0] + more && more != "" && more[0] == '\r'
  {
    if |us| == 1 {
      assert Join(us, CRLF) + rest == us[0] + rest;
    } else {
      var more := CRLF + Join(us[1..], CRLF) + rest;
      assert Join(us, CRLF) + rest == us[0] + more;
      assert more[0] == '\r';
    }
  }

  lemma MarkerAfterLine(t: string, rest: string)
    requires !Contains(t, CRLF)
    ensures Find(t + HEADER_END + rest, HEADER_END, 0) == Some(|t|)
  {
    var s := t + HEADER_END + rest;
    assert s == t + CRLF + (CRLF + rest);
    CrlfUnbordered();
    FirstDelimiter(t, CRLF, CRLF + rest);
    forall i: nat | i < |t|
      ensures !OccursAt(s, HEADER_END, i)
    {
      MarkerIsTwoBreaks(s, i);
    }
    assert s[|t|..|t| + 4] == HEADER_END;
    FindFirst(s, HEADER_END, 0, |t|);
  }

  /** The map after setting the keys of `order` one after the other. */
  function SetAll(m: map<string, string>, fields: map<string, string>, order: seq<string>): map<string, string>
    requires forall k :: k in order ==> k in fields
    decreases |order|
  {
    if order == [] then m else SetAll(m[order[0] := fields[order[0]]], fields, order[1..])
  }

  lemma {:induction false} SetAllContents(m: map<string, string>, fields: map<string, string>, order: seq<string>)
    requires forall k :: k in order ==> k in fields
    ensures forall k :: k in SetAll(m, fields, order) <==> k in m || k in order
    ensures forall k :: k in SetAll(m, fields, order) ==>
                          SetAll(m, fields, order)[k] == if k in order then fields[k] else m[k]
    decreases |order|
  {
    if order != [] {
      SetAllContents(m[order[0] := fields[order[0]]], fields, order[1..]);
      assert forall k :: k in order <==> k == order[0] || k in order[1..];
    }
  }

  lemma {:induction false} ReadPrintedFields(m: map<string, string>, fields: map<string, string>, order: seq<string>)
    requires forall k :: k in order ==> k in fields && PrintableField(k, fields[k])
    ensures ReadFields(FieldLines(fields, order), m) == FieldsRead(SetAll(m, fields, order), false)
    decreases |order|
  {
    if order != [] {
      var k, v := order[0], fields[order[0]];
      var l := FieldLine(k, v);
      FieldLineFree(k, v);
      assert FieldLines(fields, order)[1..] == FieldLines(fields, order[1..]);
      assert l[..|k|] == k && l[|k| + 2..] == v;
      ReadPrintedFields(m[k := v], fields, order[1..]);
    }
  }

  /** The lines of a printable message. */
  lemma PrintedLines(m: Message, order: seq<string>)
    requires Printable(m) && forall k :: k in order ==> k in m.fields
    ensures var ts := [m.header] + FieldLines(m.fields, order);
            && Print(m, order) == Join(ts, CRLF) + HEADER_END + m.body
            && (forall t :: t in ts ==> !Contains(t, CRLF))
            && (forall i :: 0 < i < |ts| ==> ts[i] != "")
  {
    hide Contains;
    var ts := [m.header] + FieldLines(m.fields, order);
    PrintedHead(m.header, m.fields, order);
    forall i | 0 < i < |ts|
      ensures !Contains(ts[i], CRLF) && ts[i] != ""
    {
      assert order[i - 1] in order;
      FieldLineFree(order[i - 1], m.fields[order[i - 1]]);
    }
  }

  /** Where the printed header ends, whatever text stands behind it. */
  lemma HeadFound(m: Message, order: seq<string>, body: string)
    requires Printable(m) && forall k :: k in order ==> k in m.fields
    ensures var head := Join([m.header] + FieldLines(m.fields, order), CRLF);
            && Find(Print(m.(body := body), order), HEADER_END, 0) == Some(|head|)
            && Print(m.(body := body), order) == head + HEADER_END + body
            && Split(head, CRLF) == [m.header] + FieldLines(m.fields, order)
  {
    hide Contains, Find;
    var ts := [m.header] + FieldLines(m.fields, order);
    PrintedLines(m.(body := body), order);
    MarkerFound(ts, body);
    CrlfUnbordered();
    SplitJoin(ts, CRLF);
  }

  /** Round trip: what is printed, in any iteration order, parses back into an object that
      holds `prior` as the same start line and body and as the old fields overwritten by the
      printed ones; into an empty object, as exactly the message printed. */
  lemma PrintThenParse(m: Message, order: seq<string>, prior: Message)
    requires Printable(m) && Iterates(order, m.fields)
    ensures ParseHeader(prior, Print(m, order))
            == Parsed(ParseSuccess, Message(m.header, prior.fields + m.fields, m.body))
    ensures prior.fields == map[] ==> ParseHeader(prior, Print(m, order)) == Parsed(ParseSuccess, m)
  {
    hide Find, Split, FieldLines, Contains;
    HeadFound(m, order, m.body);
    var head := Join([m.header] + FieldLines(m.fields, order), CRLF);
    var http := Print(m, order);
    assert m.(body := m.body) == m;
    assert http[..|head|] == head && http[|head| + 4..] == m.body;
    ReadPrintedFields(prior.fields, m.fields, order);
    SetAllContents(prior.fields, m.fields, order);
    assert SetAll(prior.fields, m.fields, order) == prior.fields + m.fields;
    assert ([m.header] + FieldLines(m.fields, order))[1..] == FieldLines(m.fields, order);
    if prior.fields == map[] {
      assert prior.fields + m.fields == m.fields;
    }
  }

  // ---------- any header that a sender may write ----------

  /** A field line as it arrives: any spelling of the name, one character behind the colon
      that is skipped, and the value. */
  datatype FieldText = FieldText(name: string, sep: char, value: string)

  function LineOf(f: FieldText): string {
    f.name + ":" + [f.sep] + f.value
  }

  function LinesOf(fs: seq<FieldText>): (ls: seq<string>)
    ensures |ls| == |fs|
  {
    seq(|fs|, i requires 0 <= i < |fs| => LineOf(fs[i]))
  }

  /** The fields that the lines set: names in lower case, the last of equal names wins. */
  function FieldsOf(fs: seq<FieldText>, m: map<string, string>): map<string, string>
    decreases |fs|
  {
    if fs == [] then m else FieldsOf(fs[1..], m[LowerAll(fs[0].name) := fs[0].value])
  }

  predicate IsLine(f: FieldText) {
    ':' !in f.name && !Contains(LineOf(f), CRLF)
  }

  function Written(start: string, fs: seq<FieldText>, body: string): string {
    Join([start] + LinesOf(fs), CRLF) + HEADER_END + body
  }

  lemma {:induction false} ReadWrittenFields(fs: seq<FieldText>, m: map<string, string>)
    requires forall f :: f in fs ==> IsLine(f)
    ensures ReadFields(LinesOf(fs), m) == FieldsRead(FieldsOf(fs, m), false)
    decreases |fs|
  {
    hide Contains;
    if fs != [] {
      var f := fs[0];
      assert f in fs;
      LineReads(f);
      assert LinesOf(fs)[1..] == LinesOf(fs[1..]);
      ReadWrittenFields(fs[1..], m[LowerAll(f.name) := f.value]);
    }
  }

  /** Whatever the spelling of the names and however often they occur, the parser takes the
      start line, the fields and the body apart where they were put together. */
  lemma WriteThenParse(start: string, fs: seq<FieldText>, body: string, prior: Message)
    requires !Contains(start, CRLF) && forall f :: f in fs ==> IsLine(f)
    ensures ParseHeader(prior, Written(start, fs, body))
            == Parsed(ParseSuccess, Message(start, FieldsOf(fs, prior.fields), body))
  {
    hide Find, Split, Contains, Join;
    var ts := [start] + LinesOf(fs);
    forall i | 0 < i < |ts|
      ensures !Contains(ts[i], CRLF) && ts[i] != ""
    {
      assert fs[i - 1] in fs && ts[i] == LineOf(fs[i - 1]);
    }
    var head, http := Join(ts, CRLF), Written(start, fs, body);
    MarkerFound(ts, body);
    assert http[..|head|] == head && http[|head| + 4..] == body;
    CrlfUnbordered();
    SplitJoin(ts, CRLF);
    assert ts[1..] == LinesOf(fs);
    ReadWrittenFields(fs, prior.fields);
  }

  /** A line without a colon ends the fields, whatever follows it; a line that ends in its
      first colon throws. */
  lemma {:induction false} WrongLine(fs: seq<FieldText>, bad: string, more: seq<string>, m: map<string, string>)
    requires forall f :: f in fs ==> IsLine(f)
    ensures ':' !in bad ==> ReadFields(LinesOf(fs) + [bad] + more, m) == FieldsRead(FieldsOf(fs, m), false)
    ensures bad != "" && bad[|bad| - 1] == ':' && ':' !in bad[..|bad| - 1] ==>
              ReadFields(LinesOf(fs) + [bad] + more, m) == FieldsRead(FieldsOf(fs, m), true)
    decreases |fs|
  {
    hide Contains;
    var ls := LinesOf(fs) + [bad] + more;
    if fs == [] {
      assert ls[0] == bad;
      if bad != "" && bad[|bad| - 1] == ':' && ':' !in bad[..|bad| - 1] {
        forall j | 0 <= j < |bad| - 1
          ensures bad[j] != ':'
        {
          assert bad[..|bad| - 1][j] == bad[j];
        }
      }
    } else {
      var f := fs[0];
      assert f in fs;
      LineReads(f);
      assert ls[0] == LineOf(f);
      assert ls[1..] == LinesOf(fs[1..]) + [bad] + more;
      WrongLine(fs[1..], bad, more, m[LowerAll(f.name) := f.value]);
    }
  }

  lemma LineReads(f: FieldText)
    requires IsLine(f)
    ensures var l := LineOf(f);
            && IndexOf(l, ':', 0) == |f.name| && |f.name| + 2 <= |l|
            && l[..|f.name|] == f.name && l[|f.name| + 2..] == f.value
  {
    hide Contains;
    var l := LineOf(f);
    forall j | 0 <= j < |f.name|
      ensures l[j] != ':'
    {
      assert l[j] == f.name[j] && f.name[j] in f.name;
    }
    assert l[|f.name|] == ':';
  }
}
