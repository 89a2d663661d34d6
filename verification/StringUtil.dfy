/** The string helpers of src/stringutil.cpp. */
module StringUtil {
  import opened Bytes

  predicate OccursAt(s: string, d: string, i: nat) {
    i + |d| <= |s| && s[i..i + |d|] == d
  }

  predicate Contains(s: string, d: string) {
    exists i: nat :: i <= |s| && OccursAt(s, d, i)
  }

  /** `s.find(d, from)`. */
  function Find(s: string, d: string, from: nat): (r: Option<nat>)
    ensures r.Some? ==> from <= r.value && OccursAt(s, d, r.value)
    ensures r.Some? ==> forall i: nat :: from <= i < r.value ==> !OccursAt(s, d, i)
    ensures r.None? ==> forall i: nat :: from <= i ==> !OccursAt(s, d, i)
    decreases |s| - from
  {
    if from + |d| > |s| then None
    else if s[from..from + |d|] == d then Some(from)
    else Find(s, d, from + 1)
  }

  lemma FindFirst(s: string, d: string, from: nat, i: nat)
    requires from <= i && OccursAt(s, d, i)
    requires forall j: nat :: from <= j < i ==> !OccursAt(s, d, j)
    ensures Find(s, d, from) == Some(i)
  {
  }

  lemma ContainsIffFound(s: string, d: string)
    ensures Contains(s, d) <==> Find(s, d, 0).Some?
  {
    var r := Find(s, d, 0);
    if r.Some? {
      assert r.value <= |s| && OccursAt(s, d, r.value);
    }
  }

  // ---------- splitting at a string ----------

  /** What lies between the occurrences of `d`, searched from left to right. */
  function Split(s: string, d: string): (ts: seq<string>)
    requires d != ""
    ensures |ts| > 0
    decreases |s|
  {
    var r := Find(s, d, 0);
    if r.None? then [s] else [s[..r.value]] + Split(s[r.value + |d|..], d)
  }

  function Join(ts: seq<string>, d: string): string {
    if ts == [] then "" else if |ts| == 1 then ts[0] else ts[0] + d + Join(ts[1..], d)
  }

  /** Joining the tokens gives the string back, and no token contains the delimiter. */
  lemma {:induction false} JoinSplit(s: string, d: string)
    requires d != ""
    ensures Join(Split(s, d), d) == s
    ensures forall t :: t in Split(s, d) ==> !Contains(t, d)
    decreases |s|
  {
    var r := Find(s, d, 0);
    if r.Some? {
      var i := r.value;
      var rest := s[i + |d|..];
      JoinSplit(rest, d);
      assert Split(s, d)[1..] == Split(rest, d);
      assert s == s[..i] + d + rest;
      forall j: nat | j <= i
        ensures !OccursAt(s[..i], d, j)
      {
        if OccursAt(s[..i], d, j) {
          assert s[j..j + |d|] == s[..i][j..j + |d|];
          assert OccursAt(s, d, j);
        }
      }
    } else {
      assert !Contains(s, d);
    }
  }

  /** No proper part at the front of `d` is also its end, so occurrences cannot overlap. */
  predicate Unbordered(d: string) {
    d != "" && forall k: nat :: 0 < k < |d| ==> d[..k] != d[|d| - k..]
  }

  /** An occurrence that begins in the token and ends in the delimiter is a border. */
  lemma StraddleIsBorder(t: string, d: string, rest: string, j: nat)
    requires j < |t| < j + |d| && OccursAt(t + d + rest, d, j)
    ensures !Unbordered(d)
  {
    var s := t + d + rest;
    var k := j + |d| - |t|;
    assert 0 < k < |d|;
    assert d[|d| - k..] == s[j..j + |d|][|d| - k..] == s[|t|..|t| + k];
    assert s[|t|..|t| + k] == d[..k];
  }

  lemma OccursInFront(t: string, more: string, d: string, j: nat)
    requires j + |d| <= |t|
    ensures OccursAt(t + more, d, j) <==> OccursAt(t, d, j)
  {
    assert (t + more)[j..j + |d|] == t[j..j + |d|];
  }

  /** The first occurrence of an unbordered delimiter behind a token free of it is the one
      that was put there. */
  lemma FirstDelimiter(t: string, d: string, rest: string)
    requires Unbordered(d) && !Contains(t, d)
    ensures Find(t + d + rest, d, 0) == Some(|t|)
  {
    var s := t + d + rest;
    assert s == t + (d + rest);
    assert s[|t|..|t| + |d|] == d;
    forall j: nat | j < |t| && OccursAt(s, d, j)
      ensures false
    {
      if j + |d| <= |t| {
        OccursInFront(t, d + rest, d, j);
      } else {
        StraddleIsBorder(t, d, rest, j);
      }
    }
    FindFirst(s, d, 0, |t|);
  }

  /** Splitting undoes joining when the delimiter is unbordered and no token contains it. */
  lemma {:induction false} SplitJoin(ts: seq<string>, d: string)
    requires ts != [] && Unbordered(d)
    requires forall t :: t in ts ==> !Contains(t, d)
    ensures Split(Join(ts, d), d) == ts
  {
    if |ts| == 1 {
      ContainsIffFound(ts[0], d);
    } else {
      var rest := Join(ts[1..], d);
      assert ts[0] in ts;
      FirstDelimiter(ts[0], d, rest);
      SplitJoin(ts[1..], d);
      var s := Join(ts, d);
      assert s[..|ts[0]|] == ts[0] && s[|ts[0]| + |d|..] == rest;
    }
  }

  const CRLF := "\r\n"

  lemma CrlfUnbordered()
    ensures Unbordered(CRLF)
  {
    forall k: nat | 0 < k < |CRLF|
      ensures CRLF[..k] != CRLF[|CRLF| - k..]
    {
      assert CRLF[..1][0] == '\r' && CRLF[1..][0] == '\n';
    }
  }

  lemma OccursInTail(s: string, d: string, from: nat, j: nat)
    requires from <= |s|
    ensures OccursAt(s[from..], d, j) <==> OccursAt(s, d, from + j)
  {
    if from + j + |d| <= |s| {
      assert s[from..][j..j + |d|] == s[from + j..from + j + |d|];
    }
  }

  /** Searching from a position is searching the tail. */
  lemma FindInTail(s: string, d: string, from: nat)
    requires from <= |s|
    ensures Find(s[from..], d, 0)
            == if Find(s, d, from).None? then None else Some(Find(s, d, from).value - from)
  {
    hide Find, OccursAt;
    var a, b := Find(s, d, from), Find(s[from..], d, 0);
    if a.Some? {
      OccursInTail(s, d, from, a.value - from);
    }
    if b.Some? {
      OccursInTail(s, d, from, b.value);
      assert OccursAt(s, d, from + b.value);
    }
  }

  lemma SplitAt(s: string, d: string, k: nat)
    requires d != "" && Find(s, d, 0) == Some(k) && k + |d| <= |s|
    ensures Split(s, d) == [s[..k]] + Split(s[k + |d|..], d)
  {
    hide Find, OccursAt;
  }

  lemma SplitNot(s: string, d: string)
    requires d != "" && Find(s, d, 0) == None
    ensures Split(s, d) == [s]
  {
    hide Find, OccursAt;
  }

  /** The split of what lies behind a position. */
  lemma SplitFrom(s: string, d: string, from: nat)
    requires d != "" && from <= |s|
    ensures Find(s, d, from).None? ==> Split(s[from..], d) == [s[from..]]
    ensures Find(s, d, from).Some? ==>
              var i := Find(s, d, from).value;
              Split(s[from..], d) == [s[from..i]] + Split(s[i + |d|..], d)
  {
    hide Split, Find, OccursAt;
    FindInTail(s, d, from);
    if Find(s, d, from).None? {
      SplitNot(s[from..], d);
    } else {
      var i := Find(s, d, from).value;
      FoundInside(s, d, i);
      TailSlices(s, from, i, |d|);
      SplitAt(s[from..], d, i - from);
    }
  }

  lemma FoundInside(s: string, d: string, i: nat)
    requires OccursAt(s, d, i)
    ensures i + |d| <= |s|
  {
  }

  lemma TailSlices(s: string, from: nat, i: nat, n: nat)
    requires from <= i && i + n <= |s|
    ensures s[from..][..i - from] == s[from..i] && s[from..][i - from + n..] == s[i + n..]
  {
  }

  /** `tokenize(str, delimiter)`; with an empty delimiter the source does not return. */
  method Tokenize(s: string, d: string) returns (res: seq<string>)
    requires d != ""
    ensures res == Split(s, d)
  {
    hide Split;
    var posStart: nat := 0;
    res := [];
    var posEnd := Find(s, d, posStart);
    assert s[0..] == s;
    while posEnd.Some?
      invariant posStart <= |s| && posEnd == Find(s, d, posStart)
      invariant Split(s, d) == res + Split(s[posStart..], d)
      decreases |s| - posStart
    {
      SplitFrom(s, d, posStart);
      var token := s[posStart..posEnd.value];
      posStart := posEnd.value + |d|;
      Assoc(res, [token], Split(s[posStart..], d));
      res := res + [token];
      posEnd := Find(s, d, posStart);
    }
    SplitFrom(s, d, posStart);
    res := res + [s[posStart..]];
  }

  lemma {:induction false} JoinPrepend(t: string, ts: seq<string>, d: string)
    requires ts != []
    ensures Join([t] + ts, d) == t + d + Join(ts, d)
  {
    assert ([t] + ts)[1..] == ts;
  }

  lemma {:induction false} JoinAppend(ts: seq<string>, t: string, d: string)
    requires ts != []
    ensures Join(ts + [t], d) == Join(ts, d) + d + t
  {
    if |ts| == 1 {
      assert (ts + [t])[1..] == [t];
    } else {
      JoinAppend(ts[1..], t, d);
      assert (ts + [t])[1..] == ts[1..] + [t];
      var rest := Join(ts[1..], d);
      assert ts[0] + d + (rest + d + t) == (ts[0] + d + rest) + d + t;
    }
  }

  /** `replace_all`: although it searches a copy that it changes as it goes, the result is
      the original split at `from` and joined with `to`, even if `to` contains `from`. */
  method ReplaceAll(s: string, from: string, to: string) returns (r: string)
    ensures from == "" ==> r == ""
    ensures from != "" ==> r == Join(Split(s, from), to)
  {
    if from == "" {
      return "";
    }
    hide Finished, Find, OccursAt;
    r := s;
    var startPos: nat := 0;
    FinishedAtStart(s, from, to);
    var found := Find(r, from, startPos);
    while found.Some?
      invariant startPos <= |r| && found == Find(r, from, startPos)
      invariant Finished(r, startPos, from, to) == Finished(s, 0, from, to)
      decreases |r| - startPos
    {
      r, startPos := ReplaceAt(r, from, to, startPos, found.value);
      found := Find(r, from, startPos);
    }
    FinishedAtEnd(r, startPos, from, to);
  }

  /** `strcopy.replace(i, from.length(), to)`, and where the search goes on. */
  method ReplaceAt(r: string, from: string, to: string, pos: nat, i: nat)
    returns (r': string, pos': nat)
    requires from != "" && pos <= |r| && Find(r, from, pos) == Some(i)
    ensures pos' == i + |to| <= |r'| && i + |from| <= |r|
    ensures r' == r[..i] + to + r[i + |from|..]
    ensures |r'| - pos' < |r| - pos
    ensures Finished(r', pos', from, to) == Finished(r, pos, from, to)
  {
    hide Finished, Find, OccursAt;
    ReplaceOne(r, from, to, pos);
    FoundInside(r, from, i);
    r' := r[..i] + to + r[i + |from|..];
    pos' := i + |to|;
  }

  /** What the loop of `replace_all` makes of `r` from position `pos` on. */
  ghost function Finished(r: string, pos: nat, from: string, to: string): string
    requires from != "" && pos <= |r|
  {
    r[..pos] + Join(Split(r[pos..], from), to)
  }

  lemma FinishedAtStart(s: string, from: string, to: string)
    requires from != ""
    ensures Finished(s, 0, from, to) == Join(Split(s, from), to)
  {
    hide Split, Join;
    assert s[0..] == s && s[..0] == "";
  }

  lemma FinishedAtEnd(r: string, pos: nat, from: string, to: string)
    requires from != "" && pos <= |r| && Find(r, from, pos).None?
    ensures Finished(r, pos, from, to) == r
  {
    hide Split, Find, OccursAt;
    SplitFrom(r, from, pos);
    JoinOne(r[pos..], to);
    assert r == r[..pos] + r[pos..];
  }

  lemma JoinOne(t: string, d: string)
    ensures Join([t], d) == t
  {
  }

  /** One replacement moves a token and its delimiter from what is to be searched to what is
      done. */
  lemma ReplaceOne(r: string, from: string, to: string, pos: nat)
    requires from != "" && pos <= |r| && Find(r, from, pos).Some?
    ensures var i := Find(r, from, pos).value;
            i + |from| <= |r|
            && var r' := r[..i] + to + r[i + |from|..];
               && |r'| - (i + |to|) < |r| - pos
               && Finished(r', i + |to|, from, to) == Finished(r, pos, from, to)
  {
    hide Split, Join, Find, OccursAt;
    SplitFrom(r, from, pos);
    var i := Find(r, from, pos).value;
    FoundInside(r, from, i);
    var rest := r[i + |from|..];
    JoinPrepend(r[pos..i], Split(rest, from), to);
    MoveToken(r, pos, i, to, rest, Join(Split(rest, from), to));
  }

  lemma MoveToken(r: string, pos: nat, i: nat, to: string, rest: string, joined: string)
    requires pos <= i <= |r|
    ensures var r' := r[..i] + to + rest;
            && r'[i + |to|..] == rest
            && r'[..i + |to|] + joined == r[..pos] + (r[pos..i] + to + joined)
  {
    assert r[..i] == r[..pos] + r[pos..i];
  }

  // ---------- single characters ----------

  /** `s.find(c, from)`, the length of `s` standing for not found. */
  function IndexOf(s: string, c: char, from: nat): (r: nat)
    requires from <= |s|
    ensures from <= r <= |s|
    ensures forall i :: from <= i < r ==> s[i] != c
    ensures r < |s| ==> s[r] == c
    decreases |s| - from
  {
    if from == |s| || s[from] == c then from else IndexOf(s, c, from + 1)
  }

  /** `s` without the characters of `cs`, in order. */
  function Without(s: string, cs: set<char>): (r: string)
    ensures |r| <= |s|
    ensures forall c :: c in r ==> c in s && c !in cs
  {
    if s == "" then "" else (if s[0] in cs then "" else [s[0]]) + Without(s[1..], cs)
  }

  lemma {:induction false} WithoutConcat(s: string, t: string, cs: set<char>)
    ensures Without(s + t, cs) == Without(s, cs) + Without(t, cs)
  {
    if s == "" {
      assert s + t == t;
    } else {
      assert (s + t)[1..] == s[1..] + t;
      WithoutConcat(s[1..], t, cs);
    }
  }

  lemma {:induction false} WithoutAbsent(s: string, cs: set<char>)
    requires forall c :: c in s ==> c !in cs
    ensures Without(s, cs) == s
  {
    if s != "" {
      assert s[0] in s;
      WithoutAbsent(s[1..], cs);
      assert s == [s[0]] + s[1..];
    }
  }

  lemma {:induction false} WithoutTwice(s: string, cs: set<char>, ds: set<char>)
    ensures Without(Without(s, cs), ds) == Without(s, cs + ds)
  {
    if s != "" {
      WithoutTwice(s[1..], cs, ds);
      var rest := Without(s[1..], cs);
      if s[0] in cs {
        assert Without(s, cs) == rest;
      } else {
        assert Without(s, cs) == [s[0]] + rest;
        assert ([s[0]] + rest)[1..] == rest;
      }
    }
  }

  lemma WithoutFirst(s: string, c: char, i: nat)
    requires i < |s| && s[i] == c
    ensures Without(s[..i] + s[i + 1..], {c}) == Without(s, {c})
  {
    assert Without(s[i..], {c}) == Without(s[i + 1..], {c}) by {
      assert s[i..][1..] == s[i + 1..];
    }
    hide Without;
    WithoutConcat(s[..i], s[i..], {c});
    WithoutConcat(s[..i], s[i + 1..], {c});
    assert s == s[..i] + s[i..];
  }

  /** `strip`: erases the first match until there is none. */
  method Strip(s: string, c: char) returns (r: string)
    ensures r == Without(s, {c})
  {
    hide Without;
    r := s;
    var p := IndexOf(r, c, 0);
    while p < |r|
      invariant p == IndexOf(r, c, 0) && Without(r, {c}) == Without(s, {c})
      decreases |r|
    {
      WithoutFirst(r, c, p);
      r := r[..p] + r[p + 1..];
      p := IndexOf(r, c, 0);
    }
    WithoutAbsent(r, {c});
  }

  // The characters that cookie names are stripped of.
  const COOKIE_SEPARATORS := " \t()<>@,;:\\\"/[]?={}"

  function CharsOf(cs: string): set<char> {
    set c | c in cs
  }

  /** They are the separators of section 2.2 of RFC 2616. */
  lemma SeparatorsAre(c: char)
    ensures c in CharsOf(COOKIE_SEPARATORS)
            <==> c in {'(', ')', '<', '>', '@', ',', ';', ':', '\\', '"', '/', '[', ']', '?', '=',
                       '{', '}', ' ', '\t'}
  {
    var s := COOKIE_SEPARATORS;
    assert |s| == 19;
    assert s[0] == ' ' && s[1] == '\t' && s[2] == '(' && s[3] == ')' && s[4] == '<' && s[5] == '>';
    assert s[6] == '@' && s[7] == ',' && s[8] == ';' && s[9] == ':' && s[10] == '\\' && s[11] == '"';
    assert s[12] == '/' && s[13] == '[' && s[14] == ']' && s[15] == '?' && s[16] == '=';
    assert s[17] == '{' && s[18] == '}';
  }

  /** `strip_all`: one pass for each character. */
  method StripAll(s: string, cs: string) returns (r: string)
    ensures r == Without(s, CharsOf(cs))
  {
    hide Without;
    r := s;
    WithoutAbsent(s, {});
    assert CharsOf(cs[..0]) == {};
    for i := 0 to |cs|
      invariant r == Without(s, CharsOf(cs[..i]))
    {
      WithoutTwice(s, CharsOf(cs[..i]), {cs[i]});
      assert CharsOf(cs[..i]) + {cs[i]} == CharsOf(cs[..i + 1]);
      r := Strip(r, cs[i]);
    }
    assert cs[..|cs|] == cs;
  }

  /** `tokenize(str, c)`: the non-empty stretches between occurrences of `c`. */
  function Tokens(s: string, c: char): (ts: seq<string>)
    decreases |s|
  {
    var i := IndexOf(s, c, 0);
    NonEmpty(s[..i]) + if i == |s| then [] else Tokens(s[i + 1..], c)
  }

  function NonEmpty(t: string): seq<string> {
    if t == "" then [] else [t]
  }

  lemma {:induction false} TokensAreFree(s: string, c: char)
    ensures forall t :: t in Tokens(s, c) ==> t != "" && c !in t
    decreases |s|
  {
    var i := IndexOf(s, c, 0);
    if i < |s| {
      TokensAreFree(s[i + 1..], c);
    }
  }

  function Concat(ts: seq<string>): string {
    if ts == [] then "" else ts[0] + Concat(ts[1..])
  }

  lemma {:induction false} ConcatSplit(ts: seq<string>, us: seq<string>)
    ensures Concat(ts + us) == Concat(ts) + Concat(us)
  {
    if ts == [] {
      assert ts + us == us;
    } else {
      assert (ts + us)[1..] == ts[1..] + us;
      ConcatSplit(ts[1..], us);
      Assoc(ts[0], Concat(ts[1..]), Concat(us));
    }
  }

  lemma ConcatNonEmpty(t: string)
    ensures Concat(NonEmpty(t)) == t
  {
    assert [t][1..] == [];
  }

  /** Put together again, the tokens are the string with the separator stripped. */
  lemma {:induction false} ConcatTokens(s: string, c: char)
    ensures Concat(Tokens(s, c)) == Without(s, {c})
    decreases |s|
  {
    hide Concat, Without;
    var i := IndexOf(s, c, 0);
    WithoutAbsent(s[..i], {c});
    ConcatNonEmpty(s[..i]);
    if i == |s| {
      assert s[..i] == s && NonEmpty(s) + [] == NonEmpty(s);
    } else {
      ConcatTokens(s[i + 1..], c);
      ConcatSplit(NonEmpty(s[..i]), Tokens(s[i + 1..], c));
      WithoutConcat(s[..i], s[i + 1..], {c});
      WithoutFirst(s, c, i);
    }
  }

  lemma IndexInTail(s: string, c: char, pos: nat)
    requires pos <= |s|
    ensures IndexOf(s[pos..], c, 0) == IndexOf(s, c, pos) - pos
  {
    hide IndexOf;
    var a, b := IndexOf(s, c, pos), IndexOf(s[pos..], c, 0);
    assert pos + b < |s| ==> s[pos + b] == c;
    assert a < |s| ==> s[pos..][a - pos] == c;
  }

  lemma TokensUnfold(s: string, c: char)
    ensures var i := IndexOf(s, c, 0);
            Tokens(s, c) == NonEmpty(s[..i]) + if i == |s| then [] else Tokens(s[i + 1..], c)
  {
  }

  lemma TokensFrom(s: string, c: char, pos: nat)
    requires pos <= |s|
    ensures var e := IndexOf(s, c, pos);
            Tokens(s[pos..], c)
            == NonEmpty(s[pos..e]) + if e == |s| then [] else Tokens(s[e + 1..], c)
  {
    hide NonEmpty, Tokens, IndexOf;
    IndexInTail(s, c, pos);
    TokensUnfold(s[pos..], c);
    var e, t := IndexOf(s, c, pos), s[pos..];
    assert t[..e - pos] == s[pos..e];
    if e < |s| {
      assert t[e - pos + 1..] == s[e + 1..];
    }
  }

  /** The loop over `std::getline`: a line ends at the separator or at the end of input. */
  method TokenizeChar(s: string, c: char) returns (ts: seq<string>)
    ensures ts == Tokens(s, c)
  {
    hide Tokens;
    ts := [];
    var pos := 0;
    assert s[0..] == s;
    while pos < |s|
      invariant pos <= |s| && Tokens(s, c) == ts + Tokens(s[pos..], c)
      decreases |s| - pos
    {
      TokensFrom(s, c, pos);
      var end := IndexOf(s, c, pos);
      var item := s[pos..end];
      pos := if end == |s| then end else end + 1;
      if end == |s| {
        NoTokens(s[pos..], c);
      }
      Assoc(ts, NonEmpty(item), Tokens(s[pos..], c));
      if item != "" {
        ts := ts + [item];
      }
    }
    NoTokens(s[pos..], c);
  }

  lemma NoTokens(s: string, c: char)
    requires s == ""
    ensures Tokens(s, c) == []
  {
  }

  lemma TokensCons(t: string, rest: string, c: char)
    requires c !in t
    ensures Tokens(t + [c] + rest, c) == NonEmpty(t) + Tokens(rest, c)
  {
    var s := t + [c] + rest;
    assert s[|t|] == c;
    forall j | 0 <= j < |t|
      ensures s[j] != c
    {
      assert s[j] == t[j] && t[j] in t;
    }
    assert IndexOf(s, c, 0) == |t|;
    assert s[..|t|] == t && s[|t| + 1..] == rest;
  }

  lemma TokensFree(t: string, c: char)
    requires c !in t
    ensures Tokens(t, c) == NonEmpty(t)
  {
    assert IndexOf(t, c, 0) == |t|;
    assert t[..|t|] == t;
  }

  /** Something that can stand as one token. */
  predicate OneToken(s: string, c: char) {
    s != "" && c !in s
  }

  /** Non-empty tokens free of the separator come back from the joined string. */
  lemma {:induction false} TokensJoin(ts: seq<string>, c: char)
    requires forall t :: t in ts ==> t != "" && c !in t
    ensures Tokens(Join(ts, [c]), c) == ts
  {
    hide Tokens;
    if ts == [] {
      NoTokens("", c);
    } else {
      assert ts[0] in ts;
      if |ts| == 1 {
        TokensFree(ts[0], c);
      } else {
        forall t | t in ts[1..]
          ensures t != "" && c !in t
        {
          assert t in ts;
        }
        TokensJoin(ts[1..], c);
        TokensCons(ts[0], Join(ts[1..], [c]), c);
        assert ts == [ts[0]] + ts[1..];
      }
    }
  }
}
