/** What the parser makes of a disposition line with any parameters, also with the extended file name of RFC 5987,
    and of a part that has such a line. */
module MultipartHeaders {
  import opened Wrappers
  import opened Bytes
  import opened TextCodec
  import opened Multipart
  import opened MultipartPieces
  import opened MultipartRoundTrip

  type Pair = (string, string)

  // ------------------------------------------------------------ a parameter list

  /** A text that stands for itself in a parameter list. */
  predicate PlainText(s: string) {
    s != "" && Trimmed(s) && PlainParam(s)
  }

  predicate PlainPair(p: Pair) {
    PlainText(p.0) && PlainText(p.1) && p.0[0] != '"' && !IsSpace(p.0[0])
  }

  predicate PlainPairs(ps: seq<Pair>) {
    forall i :: 0 <= i < |ps| ==> PlainPair(ps[i])
  }

  function PairText(p: Pair): string { p.0 + "=" + p.1 }

  function PairTexts(ps: seq<Pair>): (r: seq<string>)
    ensures |r| == |ps|
  {
    seq(|ps|, i requires 0 <= i < |ps| => PairText(ps[i]))
  }

  /** The parameters as they are written, each behind a semicolon and a blank but the first. */
  function ListText(texts: seq<string>): string {
    if texts == [] then ""
    else if |texts| == 1 then texts[0]
    else texts[0] + ";" + (" " + ListText(texts[1..]))
  }

  /** How a disposition line can begin: in any letter case, and with any blanks between. */
  datatype Style = Style(name: string, gap: string, kind: string, gap2: string)

  predicate Usual(st: Style) {
    && |st.name| == |CONTENT_DISPOSITION| && StartsWithIgnoreCase(st.name, CONTENT_DISPOSITION)
    && |st.kind| == |FORM_DATA| && StartsWithIgnoreCase(st.kind, FORM_DATA)
    && AllSpace(st.gap) && AllSpace(st.gap2)
  }

  predicate AllSpace(s: string) {
    forall i :: 0 <= i < |s| ==> IsSpace(s[i])
  }

  const PLAIN_STYLE := Style(CONTENT_DISPOSITION, " ", FORM_DATA, " ")

  function DispositionWith(st: Style, ps: seq<Pair>): string {
    st.name + (st.gap + (st.kind + (st.gap2 + ListText(PairTexts(ps)))))
  }

  /** The value given for a key: that of its first pair, without the quotes around it. */
  function Given(ps: seq<Pair>, key: string): (r: Option<string>)
    ensures r.Some? ==>
              exists i :: 0 <= i < |ps| && ps[i].0 == key && r.value == TrimQuotes(ps[i].1)
                          && forall j :: 0 <= j < i ==> ps[j].0 != key
    ensures r.None? ==> forall i :: 0 <= i < |ps| ==> ps[i].0 != key
  {
    if ps == [] then None
    else if ps[0].0 == key then
      assert ps[0].0 == key && TrimQuotes(ps[0].1) == TrimQuotes(ps[0].1);
      Some(TrimQuotes(ps[0].1))
    else
      var r := Given(ps[1..], key);
      assert forall i :: 1 <= i < |ps| ==> ps[1..][i - 1] == ps[i];
      r
  }

  // ------------------------------------------------------------ reading it back

  lemma {:induction false} LeadingBlank(s: string)
    ensures Trim(" " + s) == Trim(s)
  {
    assert (" " + s)[1..] == s;
  }

  lemma {:induction false} FirstPiece(s: string, d: char)
    requires d != ' '
    ensures Segments(" " + s, d) == [" " + Segments(s, d)[0]] + Segments(s, d)[1..]
  {
    var i := Find(s, [d]);
    if i == |s| {
      NoneFound(s, d);
      SegmentsOfOne(s, d);
      SegmentsOfOne(" " + s, d);
    } else {
      BeforeFirst(s, d);
      assert s[i..i + 1] == [d];
      assert s == s[..i] + [d] + s[i + 1..];
      assert " " + s == (" " + s[..i]) + [d] + s[i + 1..];
      SegmentsOfCons(s[..i], d, s[i + 1..]);
      SegmentsOfCons(" " + s[..i], d, s[i + 1..]);
    }
  }

  /** A blank in front changes no piece. */
  lemma {:induction false} SplitSpaced(s: string, d: char)
    requires d != ' '
    ensures Split(" " + s, d) == Split(s, d)
  {
    var (first, more) := (Segments(s, d)[0], Segments(s, d)[1..]);
    FirstPiece(s, d);
    LeadingBlank(first);
    assert Segments(s, d) == [first] + more;
    CleanCons(first, more);
    CleanCons(" " + first, more);
    CleanOne(first);
    CleanOne(" " + first);
  }

  /** The list is split where it was joined. */
  lemma {:induction false} ListSplits(texts: seq<string>)
    requires forall i :: 0 <= i < |texts| ==> texts[i] != "" && Trimmed(texts[i]) && ';' !in texts[i]
    ensures Split(ListText(texts), ';') == texts
  {
    if texts == [] {
      SegmentsOfOne("", ';');
      CleanOne("");
    } else if |texts| == 1 {
      SegmentsOfOne(texts[0], ';');
      CleanOne(texts[0]);
      TrimOfTrimmed(texts[0]);
    } else {
      SplitCons(texts[0], ';', " " + ListText(texts[1..]));
      CleanOne(texts[0]);
      TrimOfTrimmed(texts[0]);
      SplitSpaced(ListText(texts[1..]), ';');
      ListSplits(texts[1..]);
    }
  }

  lemma {:induction false} PairReads(p: Pair)
    requires PlainPair(p)
    ensures KeyValue(PairText(p)) == p && TrimQuotes(p.0) == p.0
    ensures PairText(p) != "" && Trimmed(PairText(p)) && ';' !in PairText(p)
  {
    KeyValueReads([p.0, p.1]);
    assert [p.0, p.1][1..] == [p.1];
    assert Join([p.0, p.1], '=') == PairText(p);
  }

  // ------------------------------------------------------------ looking a key up

  lemma {:induction false} LookupAppend(a: seq<Pair>, b: seq<Pair>, key: string)
    ensures Lookup(a + b, key) == if Lookup(a, key).Some? then Lookup(a, key) else Lookup(b, key)
  {
    if a == [] {
      assert a + b == b;
    } else {
      assert (a + b)[1..] == a[1..] + b;
      LookupAppend(a[1..], b, key);
    }
  }

  function Unquoted(pairs: seq<Pair>): (r: seq<Pair>)
    ensures |r| == |pairs|
  {
    seq(|pairs|, i requires 0 <= i < |pairs| => (TrimQuotes(pairs[i].0), TrimQuotes(pairs[i].1)))
  }

  lemma {:induction false} UnquotedAppend(a: seq<Pair>, b: seq<Pair>)
    ensures Unquoted(a + b) == Unquoted(a) + Unquoted(b)
  {}

  /** What is found among the pairs of some texts, repeated texts counting once. */
  function Found(texts: seq<string>, key: string): Option<string> {
    Lookup(Unquoted(KeyValues(Dedup(texts))), key)
  }

  lemma {:induction false} FoundSnoc(texts: seq<string>, t: string, key: string)
    ensures Found(texts + [t], key)
         == if t in texts || Found(texts, key).Some? then Found(texts, key) else Lookup(Unquoted(OnePair(t)), key)
  {
    DedupSnoc(texts, t);
    if t !in texts {
      KeyValuesSnoc(Dedup(texts), t);
      UnquotedAppend(KeyValues(Dedup(texts)), OnePair(t));
      LookupAppend(Unquoted(KeyValues(Dedup(texts))), Unquoted(OnePair(t)), key);
    }
  }

  lemma {:induction false} GivenSnoc(ps: seq<Pair>, p: Pair, key: string)
    ensures Given(ps + [p], key)
         == if Given(ps, key).Some? then Given(ps, key) else if p.0 == key then Some(TrimQuotes(p.1)) else None
  {
    if ps == [] {
      assert [] + [p] == [p];
      assert Given([p][1..], key) == None;
    } else {
      assert (ps + [p])[1..] == ps[1..] + [p];
      GivenSnoc(ps[1..], p, key);
    }
  }

  lemma {:induction false} OneFound(p: Pair, key: string)
    requires PlainPair(p)
    ensures Lookup(Unquoted(OnePair(PairText(p))), key) == if p.0 == key then Some(TrimQuotes(p.1)) else None
  {
    PairReads(p);
    assert Unquoted([p]) == [(p.0, TrimQuotes(p.1))];
    assert Lookup(Unquoted([p])[1..], key) == None;
  }

  /** A text written earlier has its key found already. */
  lemma {:induction false} RepeatedIsGiven(ps: seq<Pair>, p: Pair)
    requires PlainPairs(ps) && PlainPair(p) && PairText(p) in PairTexts(ps)
    ensures Given(ps, p.0).Some?
  {
    var i :| 0 <= i < |ps| && PairTexts(ps)[i] == PairText(p);
    PairReads(ps[i]);
    PairReads(p);
    assert ps[i].0 == p.0;
  }

  lemma {:induction false} FoundIsGiven(ps: seq<Pair>, key: string)
    requires PlainPairs(ps)
    ensures Found(PairTexts(ps), key) == Given(ps, key)
    decreases |ps|
  {
    if ps != [] {
      var (front, p) := (ps[..|ps| - 1], ps[|ps| - 1]);
      assert ps == front + [p] && PlainPair(p);
      FoundIsGiven(front, key);
      assert PairTexts(ps) == PairTexts(front) + [PairText(p)];
      FoundSnoc(PairTexts(front), PairText(p), key);
      GivenSnoc(front, p, key);
      OneFound(p, key);
      if PairText(p) in PairTexts(front) { RepeatedIsGiven(front, p); }
    }
  }

  lemma {:induction false} ParamsGiven(ps: seq<Pair>, key: string)
    requires PlainPairs(ps)
    ensures Lookup(Params(ListText(PairTexts(ps))), key) == Given(ps, key)
  {
    forall i | 0 <= i < |ps|
      ensures PairTexts(ps)[i] != "" && Trimmed(PairTexts(ps)[i]) && ';' !in PairTexts(ps)[i]
    { PairReads(ps[i]); }
    ListSplits(PairTexts(ps));
    assert Params(ListText(PairTexts(ps))) == Unquoted(KeyValues(Dedup(PairTexts(ps))));
    FoundIsGiven(ps, key);
  }

  // ------------------------------------------------------------ the header line

  lemma {:induction false} ListIsOneLine(ps: seq<Pair>)
    requires PlainPairs(ps)
    ensures IsOneLine(ListText(PairTexts(ps)))
    ensures ps != [] ==> ListText(PairTexts(ps)) != "" && !IsSpace(ListText(PairTexts(ps))[0])
    decreases |ps|
  {
    if ps != [] {
      var (p, texts) := (ps[0], PairTexts(ps));
      assert PlainPair(p) && texts[0] == PairText(p);
      OneLineConcat(p.0, "=" + p.1);
      assert PairText(p) == p.0 + ("=" + p.1);
      assert texts[1..] == PairTexts(ps[1..]);
      ListIsOneLine(ps[1..]);
      if |ps| > 1 {
        OneLineConcat(" ", ListText(texts[1..]));
        OneLineConcat(texts[0] + ";", " " + ListText(texts[1..]));
      }
    }
  }

  lemma {:induction false} SkipsAll(blanks: string, rest: string)
    requires AllSpace(blanks) && (rest == "" || !IsSpace(rest[0]))
    ensures SkipSpaces(blanks + rest) == rest
  {
    if blanks == "" {
      assert "" + rest == rest;
    } else {
      assert (blanks + rest)[1..] == blanks[1..] + rest;
      SkipsAll(blanks[1..], rest);
    }
  }

  lemma {:induction false} StartsInAnyCase(a: string, b: string, rest: string)
    requires |a| == |b| && StartsWithIgnoreCase(a, b)
    ensures StartsWithIgnoreCase(a + rest, b) && (a + rest)[|b|..] == rest
    ensures a != "" ==> (a + rest)[0] == a[0]
  {}

  lemma {:induction false} IsNoType(header: string)
    requires |header| >= |CONTENT_DISPOSITION| && StartsWithIgnoreCase(header, CONTENT_DISPOSITION)
    ensures !StartsWithIgnoreCase(header, CONTENT_TYPE)
  {
    assert ToLower(header[8]) == ToLower(CONTENT_DISPOSITION[8]) == 'd' && ToLower(CONTENT_TYPE[8]) == 't';
  }

  lemma {:induction false} ListIsRead(st: Style, ps: seq<Pair>)
    requires PlainPairs(ps) && Usual(st)
    ensures DispositionParams(DispositionWith(st, ps)) == Some(ListText(PairTexts(ps)))
    ensures !StartsWithIgnoreCase(DispositionWith(st, ps), CONTENT_TYPE)
  {
    var value := ListText(PairTexts(ps));
    var tail := st.kind + (st.gap2 + value);
    ListIsOneLine(ps);
    StartsInAnyCase(st.name, CONTENT_DISPOSITION, st.gap + tail);
    StartsInAnyCase(st.kind, FORM_DATA, st.gap2 + value);
    assert ToLower(st.kind[0]) == ToLower(FORM_DATA[0]) == 'f';
    SkipsAll(st.gap, tail);
    SkipsAll(st.gap2, value);
    IsNoType(DispositionWith(st, ps));
  }

  /** A type line in any letter case: the type is what follows, without outer blanks. */
  lemma {:induction false} TypeMeans(file: FileInfo, name: string, value: string)
    requires |name| == |CONTENT_TYPE| && StartsWithIgnoreCase(name, CONTENT_TYPE)
    ensures HeaderLine(file, name + value) == (file.(contentType := Trim(value)), true)
  {
    StartsInAnyCase(name, CONTENT_TYPE, value);
  }

  /** A line of another field, and a disposition of another kind, are refused. */
  lemma {:induction false} OthersAreRefused(file: FileInfo, header: string)
    requires !StartsWithIgnoreCase(header, CONTENT_TYPE)
    requires StartsWithIgnoreCase(header, CONTENT_DISPOSITION) ==>
               !StartsWithIgnoreCase(SkipSpaces(header[|CONTENT_DISPOSITION|..]), FORM_DATA)
    ensures HeaderLine(file, header) == (file, false)
  {}

  /** The value of an extended parameter in UTF-8. */
  predicate IsUtf8(v: string) {
    StartsWithIgnoreCase(v, UTF8_PREFIX) && |v| > |UTF8_PREFIX|
  }

  lemma {:induction false} GivenIsOneLine(ps: seq<Pair>, key: string)
    requires PlainPairs(ps) && Given(ps, key).Some?
    ensures IsOneLine(Given(ps, key).value)
  {
    var i :| 0 <= i < |ps| && ps[i].0 == key && Given(ps, key).value == TrimQuotes(ps[i].1);
    assert PlainPair(ps[i]);
  }

  /** A disposition line in any style, with any plain parameters in any order and number: it is accepted exactly
      when a name is given and an extended file name, if there is one, is in UTF-8. The first name given counts;
      the file name is the decoded extended one if there is one, else the plain one if there is one, else as it
      was. */
  lemma {:induction false} DispositionMeans(file: FileInfo, st: Style, ps: seq<Pair>)
    requires Usual(st) && PlainPairs(ps)
    ensures var (name, plain, extended) := (Given(ps, "name"), Given(ps, "filename"), Given(ps, "filename*"));
            var (r, ok) := HeaderLine(file, DispositionWith(st, ps));
            && (ok <==> name.Some? && (extended.Some? ==> IsUtf8(extended.value)))
            && (ok ==> && r.contentType == file.contentType && r.name == name.value
                       && r.filename == if extended.Some? then Decode(extended.value[|UTF8_PREFIX|..], false)
                                        else if plain.Some? then plain.value else file.filename)
  {
    ListIsRead(st, ps);
    DispositionIsApplied(file, DispositionWith(st, ps), Some(ListText(PairTexts(ps))));
    ParamsGiven(ps, "name");
    ParamsGiven(ps, "filename");
    ParamsGiven(ps, "filename*");
    if Given(ps, "filename*").Some? { GivenIsOneLine(ps, "filename*"); }
    AppliedMeans(file, Params(ListText(PairTexts(ps))));
  }

  lemma {:induction false} AppliedMeans(file: FileInfo, params: seq<Pair>)
    requires Lookup(params, "filename*").Some? ==> IsOneLine(Lookup(params, "filename*").value)
    ensures var (name, plain, extended) :=
              (Lookup(params, "name"), Lookup(params, "filename"), Lookup(params, "filename*"));
            var (r, ok) := ApplyParams(file, params);
            && (ok <==> name.Some? && (extended.Some? ==> IsUtf8(extended.value)))
            && (ok ==> && r.contentType == file.contentType && r.name == name.value
                       && r.filename == if extended.Some? then Decode(extended.value[|UTF8_PREFIX|..], false)
                                        else if plain.Some? then plain.value else file.filename)
  {
    var extended := Lookup(params, "filename*");
    if extended.Some? && IsUtf8(extended.value) { ExtendedIs(extended.value); }
  }

  lemma {:induction false} ExtendedIs(v: string)
    requires IsUtf8(v) && IsOneLine(v)
    ensures ExtendedValue(v) == Some(v[|UTF8_PREFIX|..])
  {}

  // ----------------------------------------------------- the extended file name

  function Quote(s: string): string { "\"" + s + "\"" }

  /** How RFC 5987 writes a text of bytes. */
  function Extended(f: string): string
    requires IsBytes(f)
  {
    UTF8_PREFIX + Encode(f)
  }

  lemma {:induction false} ExtendedIsPlain(f: string)
    requires IsBytes(f) && f != ""
    ensures PlainText(Extended(f)) && TrimQuotes(Extended(f)) == Extended(f) && IsUtf8(Extended(f))
    ensures Extended(f)[|UTF8_PREFIX|..] == Encode(f)
  {
    EncodeAlphabet(f);
    var (e, n) := (Encode(f), |UTF8_PREFIX|);
    forall i | 0 <= i < |Extended(f)|
      ensures var c := Extended(f)[i]; c != '\r' && c != '\n' && c != ';' && c != '=' && !IsBlank(c)
    {
      assert i >= n ==> Extended(f)[i] == e[i - n];
    }
    StartsWithItself(UTF8_PREFIX, e);
  }

  lemma {:induction false} QuoteIsPlain(n: string)
    requires PlainParam(n)
    ensures PlainText(Quote(n)) && TrimQuotes(Quote(n)) == n
  {
    assert Quote(n)[1..|Quote(n)| - 1] == n;
  }

  /** The disposition line with a name and an extended file name. */
  function ExtendedLine(n: string, f: string): string
    requires IsBytes(f)
  {
    CONTENT_DISPOSITION + " form-data; name=\"" + n + "\"; filename*=UTF-8''" + Encode(f)
  }

  lemma {:induction false} Joined(a: string, b: string, c: string, d: string, e: string, n: string, x: string)
    ensures a + (" " + (b + (" " + (c + (d + n + d) + e + x)))) == a + (" " + b + " " + c + d) + n + (d + e) + x
  {
    Regroup(a, " " + b + " " + c + d, n);
    Regroup(a + (" " + b + " " + c + d) + n, d + e, x);
  }

  lemma {:induction false} ExtendedLineIs(n: string, f: string)
    requires IsBytes(f)
    ensures DispositionWith(PLAIN_STYLE, [("name", Quote(n)), ("filename*", Extended(f))]) == ExtendedLine(n, f)
  {
    TwoText("name", Quote(n), "filename*", Extended(f));
    var (q, e) := ("\"", "; filename*=UTF-8''");
    assert " " + FORM_DATA + " " + "name=" + q == " form-data; name=\"";
    assert q + e == "\"; filename*=UTF-8''";
    assert "name" + "=" == "name=";
    assert "; " + "filename*" + "=" + "UTF-8''" == e;
    TailJoined("name=" + Quote(n), "; ", "filename*", "=", UTF8_PREFIX, Encode(f));
    Joined(CONTENT_DISPOSITION, FORM_DATA, "name=", q, e, n, Encode(f));
  }

  lemma {:induction false} TailJoined(a: string, b: string, c: string, d: string, u: string, x: string)
    ensures a + b + c + d + (u + x) == a + (b + c + d + u) + x
  {
    Regroup(a + b + c + d, u, x);
  }

  /** A name and an extended file name, percent-encoded from any bytes, come back as they were. */
  lemma {:induction false} ExtendedNameReads(file: FileInfo, n: string, f: string)
    requires PlainParam(n) && IsBytes(f) && f != ""
    ensures HeaderLine(file, ExtendedLine(n, f)) == (file.(name := n, filename := f), true)
  {
    var ps := [("name", Quote(n)), ("filename*", Extended(f))];
    ExtendedPairs(n, f, ps);
    DispositionMeans(file, PLAIN_STYLE, ps);
    DecodeOfEncode(f, false);
    ExtendedLineIs(n, f);
  }

  lemma {:induction false} ExtendedPairs(n: string, f: string, ps: seq<Pair>)
    requires PlainParam(n) && IsBytes(f) && f != "" && ps == [("name", Quote(n)), ("filename*", Extended(f))]
    ensures PlainPairs(ps) && Given(ps, "name") == Some(n) && Given(ps, "filename") == None
    ensures Given(ps, "filename*").Some?
    ensures var v := Given(ps, "filename*").value; IsUtf8(v) && v[|UTF8_PREFIX|..] == Encode(f)
  {
    QuoteIsPlain(n);
    ExtendedIsPlain(f);
    TwoGiven("name", Quote(n), "filename*", Extended(f));
    assert "filename" != "name" && "filename" != "filename*";
  }

  lemma {:induction false} TwoGiven(k: string, v: string, l: string, w: string)
    requires k != l
    ensures var ps := [(k, v), (l, w)];
            Given(ps, k) == Some(TrimQuotes(v)) && Given(ps, l) == Some(TrimQuotes(w))
            && forall key :: key != k && key != l ==> Given(ps, key) == None
  {
    var ps := [(k, v), (l, w)];
    assert ps[1..] == [(l, w)];
    assert [(l, w)][1..] == [];
  }

  lemma {:induction false} TwoText(k: string, v: string, l: string, w: string)
    ensures ListText(PairTexts([(k, v), (l, w)])) == k + "=" + v + "; " + l + "=" + w
  {
    var texts := PairTexts([(k, v), (l, w)]);
    assert texts == [k + "=" + v, l + "=" + w];
    assert texts[1..] == [l + "=" + w];
    assert ListText(texts[1..]) == l + "=" + w;
  }

  // ------------------------------------------------------------ a part with it

  /** A body of one part with one header line. */
  function OnePart(line: string, content: string, boundary: string): string {
    DashBoundaryCrlf(boundary) + (line + CRLF + (CRLF + (content + CrlfDashBoundary(boundary) + (DASH + CRLF))))
  }

  /** From the header line of a part to its content. */
  lemma {:induction false} HeaderLeads(p: PState, line: string, file: FileInfo, body: string, accept: Receiver)
    requires Accepts(accept) && p.phase == NewEntry && p.window == line + CRLF + (CRLF + body)
    requires line != "" && !Contains(line, CRLF) && |line| <= HEADER_MAX_LENGTH
    requires HeaderLine(NO_FILE, line) == (file, true)
    ensures Run(p, false, accept)
         == Run(p.(file := file, window := body, phase := Body, log := p.log + [Header(file)]), false, accept)
  {
    EntryLeads(p, line, CRLF + body, false, accept);
    var q := p.(file := NO_FILE, phase := Headers);
    LineLeads(q, line, CRLF + body, file, false, accept);
    BlankLeads(q.(file := file, window := CRLF + body), body, false, accept);
  }

  /** From the content of the last part to the end. */
  lemma {:induction false} LastContentLeads(p: PState, content: string, accept: Receiver)
    requires Accepts(accept) && p.phase == Body && BoundaryCharsValid(p.boundary)
    requires !Contains(content, CrlfDashBoundary(p.boundary))
    requires p.window == content + CrlfDashBoundary(p.boundary) + (DASH + CRLF)
    ensures Run(p, false, accept)
         == Outcome(p.(window := "", phase := AfterBoundary, valid := true, log := p.log + [Content(content)]), true)
  {
    ContentLeads(p, content, DASH + CRLF, false, accept);
    var q := p.(window := DASH + CRLF, phase := AfterBoundary, log := p.log + [Content(content)]);
    CloseLeads(q, false, accept);
  }

  lemma {:induction false} PartRuns(p: PState, line: string, file: FileInfo, content: string, body: string,
                                    accept: Receiver)
    requires Accepts(accept) && BoundaryCharsValid(p.boundary) && !Contains(content, CrlfDashBoundary(p.boundary))
    requires line != "" && !Contains(line, CRLF) && |line| <= HEADER_MAX_LENGTH
    requires HeaderLine(NO_FILE, line) == (file, true)
    requires p.phase == OpeningBoundary && body == content + CrlfDashBoundary(p.boundary) + (DASH + CRLF)
    requires p.window == DashBoundaryCrlf(p.boundary) + (line + CRLF + (CRLF + body))
    ensures Run(p, false, accept)
         == Outcome(p.(file := file, window := "", phase := AfterBoundary, valid := true,
                       log := p.log + [Header(file)] + [Content(content)]), true)
  {
    var q := p.(window := line + CRLF + (CRLF + body), phase := NewEntry);
    OpeningLeads(p, q.window, false, accept);
    HeaderLeads(q, line, file, body, accept);
    LastContentLeads(q.(file := file, window := body, phase := Body, log := q.log + [Header(file)]), content, accept);
  }

  /** The callbacks for one part, whatever its header line says. */
  lemma {:induction false} PartParses(line: string, file: FileInfo, content: string, boundary: string, accept: Receiver)
    requires Accepts(accept) && BoundaryCharsValid(boundary) && !Contains(content, CrlfDashBoundary(boundary))
    requires line != "" && !Contains(line, CRLF) && |line| <= HEADER_MAX_LENGTH
    requires HeaderLine(NO_FILE, line) == (file, true)
    ensures var o := Feed(Start(boundary), OnePart(line, content, boundary), accept);
            o.ok && o.p.valid && o.p.log == [Header(file), Content(content)]
  {
    var (all, body) := (OnePart(line, content, boundary), content + CrlfDashBoundary(boundary) + (DASH + CRLF));
    assert "" + all == all;
    PartRuns(Start(boundary).(window := all), line, file, content, body, accept);
    assert [] + [Header(file)] + [Content(content)] == [Header(file), Content(content)];
  }

  /** A part whose file name is given in the extended form is reported with that file name. */
  lemma {:induction false} ExtendedPartReads(n: string, f: string, content: string, boundary: string, accept: Receiver)
    requires Accepts(accept) && BoundaryCharsValid(boundary) && !Contains(content, CrlfDashBoundary(boundary))
    requires PlainParam(n) && IsBytes(f) && f != "" && |ExtendedLine(n, f)| <= HEADER_MAX_LENGTH
    ensures var o := Feed(Start(boundary), OnePart(ExtendedLine(n, f), content, boundary), accept);
            o.ok && o.p.valid && o.p.log == [Header(FileInfo(n, f, "")), Content(content)]
  {
    ExtendedNameReads(NO_FILE, n, f);
    ExtendedLineHasNoCr(n, f);
    NoCrNoCrlf(ExtendedLine(n, f));
    PartParses(ExtendedLine(n, f), FileInfo(n, f, ""), content, boundary, accept);
  }

  lemma {:induction false} NotIn(c: char, a: string, b: string)
    requires c !in a && c !in b
    ensures c !in a + b
  {}

  lemma {:induction false} ExtendedLineHasNoCr(n: string, f: string)
    requires PlainParam(n) && IsBytes(f)
    ensures '\r' !in ExtendedLine(n, f)
  {
    var (a, b, c) := (CONTENT_DISPOSITION, " form-data; name=\"", "\"; filename*=UTF-8''");
    EncodeAlphabet(f);
    NotIn('\r', a, b);
    NotIn('\r', a + b, n);
    NotIn('\r', a + b + n, c);
    NotIn('\r', a + b + n + c, Encode(f));
  }

  // ------------------------------------------------------------ the receiver

  /** What one round reports: at most one callback, and it ends the parsing if that one is refused. */
  lemma {:induction false} RoundObeys(p: PState, inLines: bool, accept: Receiver)
    requires p.window != ""
    ensures var r := Round(p, inLines, accept);
            && p.log <= r.p.log && |r.p.log| <= |p.log| + 1
            && (r.p.log != p.log ==> if r.Continue? then accept(r.p.log) else accept(r.p.log) || (!r.ok && !r.p.valid))
  {}

  /** For every receiver: no callback follows a refused one, and a refusal makes the parser give up. */
  lemma {:induction false} ReceiverIsObeyed(p: PState, inLines: bool, accept: Receiver)
    ensures var o := Run(p, inLines, accept);
            && p.log <= o.p.log
            && (forall k :: |p.log| < k < |o.p.log| ==> accept(o.p.log[..k]))
            && (o.p.log != p.log ==> accept(o.p.log) || (!o.ok && !o.p.valid))
    decreases |p.window|, Rank(p, inLines)
  {
    if p.window != "" {
      RoundObeys(p, inLines, accept);
      var r := Round(p, inLines, accept);
      if r.Continue? {
        ReceiverIsObeyed(r.p, r.inLines, accept);
        var o := Run(r.p, r.inLines, accept);
        assert o.p.log[..|r.p.log|] == r.p.log;
      }
    }
  }

  // ------------------------------------------------------- behind a delimiter

  /** What two or more bytes behind a delimiter do: CRLF begins another part, two dashes end the body, and anything
      else stops the parser for good: it waits, and all that comes later is kept unread. */
  lemma {:induction false} BehindDelimiter(p: PState, accept: Receiver)
    requires p.phase == AfterBoundary && |p.window| >= 2
    ensures StartsWith(p.window, CRLF) ==>
              Run(p, false, accept) == Run(p.(window := p.window[2..], phase := NewEntry), false, accept)
    ensures StartsWith(p.window, DASH) ==>
              Run(p, false, accept) == Outcome(p.(window := "", valid := true), true)
    ensures !StartsWith(p.window, CRLF) && !StartsWith(p.window, DASH) ==>
              forall data :: Feed(p, data, accept) == Outcome(p.(window := p.window + data), true)
  {
    assert Round(p, false, accept) == RoundAfterBoundary(p);
    if StartsWith(p.window, CRLF) {
      assert p.window[0] == '\r';
    } else if !StartsWith(p.window, DASH) {
      forall data ensures Feed(p, data, accept) == Outcome(p.(window := p.window + data), true) {
        var q := p.(window := p.window + data);
        assert q.window[..2] == p.window[..2];
        assert Round(q, false, accept) == RoundAfterBoundary(q);
      }
    }
  }
}
