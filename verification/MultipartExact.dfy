/** Which items survive the multipart round trip exactly: what the parser can report at all, for any input,
    is just what the serializer can carry. */
module MultipartExact {
  import opened Wrappers
  import opened Bytes
  import opened TextCodec
  import opened Multipart
  import opened MultipartPieces
  import opened MultipartRoundTrip

  // ------------------------------------------------- characters that stay out

  ghost predicate AllWithout(texts: seq<string>, x: char) {
    forall k :: 0 <= k < |texts| ==> x !in texts[k]
  }

  lemma {:induction false} SegmentsWithout(s: string, d: char, x: char)
    requires x !in s
    ensures AllWithout(Segments(s, d), x)
    decreases |s|
  {
    var i := Find(s, [d]);
    if i < |s| { SegmentsWithout(s[i + 1..], d, x); }
  }

  lemma {:induction false} TrimWithout(s: string, x: char)
    requires x !in s
    ensures x !in Trim(s)
  {
    var i, j := TrimIsSlice(s);
  }

  lemma {:induction false} CleanWithout(pieces: seq<string>, x: char)
    requires AllWithout(pieces, x)
    ensures AllWithout(Clean(pieces), x)
  {
    if pieces != [] {
      TrimWithout(pieces[0], x);
      CleanWithout(pieces[1..], x);
    }
  }

  /** Pieces of a split have neither the separator nor a character the text does not have. */
  lemma {:induction false} SplitWithout(s: string, d: char, x: char)
    requires x !in s || x == d
    ensures AllWithout(Split(s, d), x)
  {
    if x !in s { SegmentsWithout(s, d, x); }
    CleanWithout(Segments(s, d), x);
  }

  lemma {:induction false} KeyValuesWithout(texts: seq<string>, x: char)
    requires AllWithout(texts, x) || x == '='
    ensures forall k :: 0 <= k < |KeyValues(texts)| ==> x !in KeyValues(texts)[k].1
  {
    if texts != [] {
      SplitWithout(texts[0], '=', x);
      KeyValuesWithout(texts[1..], x);
    }
  }

  /** No parameter value has a semicolon, an equals sign or a character the text does not have. */
  lemma {:induction false} ParamsWithout(m1: string, x: char)
    requires x !in m1 || x == ';' || x == '='
    ensures forall k :: 0 <= k < |Params(m1)| ==> x !in Params(m1)[k].1
  {
    var texts := Split(m1, ';');
    if x != '=' {
      SplitWithout(m1, ';', x);
      DedupKeepsDistinct(texts);
    }
    KeyValuesWithout(Dedup(texts), x);
  }

  lemma {:induction false} ParamsArePlain(m1: string)
    requires IsOneLine(m1)
    ensures forall k :: 0 <= k < |Params(m1)| ==> PlainParam(Params(m1)[k].1)
  {
    ParamsWithout(m1, ';');
    ParamsWithout(m1, '=');
    ParamsWithout(m1, '\r');
    ParamsWithout(m1, '\n');
  }

  // -------------------------------------------------------- what is reported

  /** A pending file as header lines can make it. */
  ghost predicate Proper(f: FileInfo) {
    PlainParam(f.name) && Trimmed(f.contentType) && !Contains(f.contentType, CRLF)
  }

  lemma {:induction false} OccursWithin(s: string, p: string, k: nat, i: nat, j: nat, n: nat)
    requires k <= |s| && i <= j <= |s| - k
    ensures OccursAt(s[k..][i..j], p, n) ==> OccursAt(s, p, k + i + n)
  {
    if n + |p| <= j - i {
      assert s[k..][i..j] == s[k + i..k + j];
      SliceOfSlice(s, k + i, k + j, n, n + |p|);
    }
  }

  lemma {:induction false} TypeIsProper(header: string, k: nat)
    requires k <= |header| && !Contains(header, CRLF)
    ensures Trimmed(Trim(header[k..])) && !Contains(Trim(header[k..]), CRLF)
  {
    var i, j := TrimIsSlice(header[k..]);
    forall n: nat | n <= j - i ensures !OccursAt(Trim(header[k..]), CRLF, n) {
      OccursWithin(header, CRLF, k, i, j, n);
    }
  }

  lemma {:induction false} ApplyParamsIsProper(file: FileInfo, m1: string)
    requires Proper(file) && IsOneLine(m1)
    ensures Proper(ApplyParams(file, Params(m1)).0)
  {
    ParamsArePlain(m1);
  }

  lemma {:induction false} HeaderLineIsProper(file: FileInfo, header: string)
    requires Proper(file) && !Contains(header, CRLF)
    ensures Proper(HeaderLine(file, header).0)
  {
    if StartsWithIgnoreCase(header, CONTENT_TYPE) {
      TypeIsProper(header, |CONTENT_TYPE|);
    } else if DispositionParams(header).Some? {
      ApplyParamsIsProper(file, DispositionParams(header).value);
    }
  }

  /** What is before a first occurrence has no occurrence. */
  lemma {:induction false} BeforeIsFree(w: string, p: string, k: nat)
    requires p != "" && k <= Find(w, p)
    ensures !Contains(w[..k], p)
  {
    forall j: nat | j <= k ensures !OccursAt(w[..k], p, j) {
      if j + |p| <= k {
        assert w[..k][j..j + |p|] == w[j..j + |p|];
        assert !OccursAt(w, p, j);
      }
    }
  }

  /** A report the parser can make for the delimiter `d`. */
  ghost predicate Reportable(e: Event, d: string) {
    match e
    case Header(f) => Proper(f)
    case Content(c) => !Contains(c, d)
  }

  ghost predicate Reports(p: PState) {
    Proper(p.file) && forall i :: 0 <= i < |p.log| ==> Reportable(p.log[i], CrlfDashBoundary(p.boundary))
  }

  lemma {:induction false} NoFileIsProper()
    ensures Proper(NO_FILE)
  {
    forall i: nat | i <= 0 ensures !OccursAt("", CRLF, i) {}
  }

  lemma {:induction false} RoundReports(p: PState, inLines: bool, accept: Receiver)
    requires p.window != "" && Reports(p)
    ensures Reports(Target(Round(p, inLines, accept))) && Target(Round(p, inLines, accept)).boundary == p.boundary
  {
    match p.phase
    case OpeningBoundary =>
    case NewEntry => NoFileIsProper();
    case Headers =>
      if inLines {
        var pos := Find(p.window, CRLF);
        BeforeIsFree(p.window, CRLF, pos);
        HeaderLineIsProper(p.file, p.window[..pos]);
      }
    case Body => BodyReports(p, accept);
    case AfterBoundary =>
  }

  lemma {:induction false} BodyReports(p: PState, accept: Receiver)
    requires p.window != "" && Reports(p)
    ensures Reports(Target(RoundBody(p, accept))) && Target(RoundBody(p, accept)).boundary == p.boundary
  {
    var d := CrlfDashBoundary(p.boundary);
    var pos := Find(p.window, d);
    BeforeIsFree(p.window, d, pos);
    if |p.window| >= |d| && pos == |p.window| { BeforeIsFree(p.window, d, |p.window| - |d|); }
  }

  /** For every input and receiver: reported names are plain, reported types are trimmed single lines, and
      reported contents are free of the delimiter. */
  lemma {:induction false} RunReports(p: PState, inLines: bool, accept: Receiver)
    requires Reports(p)
    ensures Reports(Run(p, inLines, accept).p) && Run(p, inLines, accept).p.boundary == p.boundary
    decreases |p.window|, Rank(p, inLines)
  {
    if p.window != "" {
      RoundReports(p, inLines, accept);
      match Round(p, inLines, accept)
      case Return(_, _) =>
      case Continue(q, lines) => RunReports(q, lines, accept);
    }
  }

  // ------------------------------------------------- file names that get lost

  /** A file name that the header lines of a part can leave behind when its own file name, of length `n`, has
      a line break, a semicolon or an equals sign in it. */
  predicate Lesser(filename: string, n: nat) {
    PlainParam(filename) || |filename| < n
  }

  lemma {:induction false} ExtendedIsShorter(v: string)
    requires ExtendedValue(v).Some?
    ensures |Decode(ExtendedValue(v).value, false)| < |v|
  {
    DecodeNotLonger(ExtendedValue(v).value, false);
  }

  lemma {:induction false} AppliedIsLesser(file: FileInfo, params: seq<(string, string)>, n: nat)
    requires Lesser(file.filename, n)
    requires forall k :: 0 <= k < |params| ==> PlainParam(params[k].1)
    requires forall k :: 0 <= k < |params| && params[k].0 == "filename*" ==> |params[k].1| <= n
    ensures Lesser(ApplyParams(file, params).0.filename, n)
  {
    var star := Lookup(params, "filename*");
    if star.Some? && ExtendedValue(star.value).Some? { ExtendedIsShorter(star.value); }
  }

  /** The parameters come from texts of the split. */
  lemma {:induction false} KeyValuesFrom(texts: seq<string>, kvs: seq<(string, string)>, k: nat) returns (t: string)
    requires kvs == KeyValues(texts) && k < |kvs|
    ensures t in texts && kvs[k] == KeyValue(t)
    decreases |texts|
  {
    var (head, rest) := (OnePair(texts[0]), KeyValues(texts[1..]));
    assert kvs == head + rest;
    if k < |head| { t := texts[0]; } else { t := KeyValuesFrom(texts[1..], rest, k - |head|); }
  }

  lemma {:induction false} ParamFrom(m1: string, k: nat) returns (t: string)
    requires k < |Params(m1)|
    ensures t in Split(m1, ';')
    ensures Params(m1)[k] == (TrimQuotes(KeyValue(t).0), TrimQuotes(KeyValue(t).1))
  {
    DedupKeepsDistinct(Split(m1, ';'));
    t := KeyValuesFrom(Dedup(Split(m1, ';')), ParsedPairs(m1, ';'), k);
  }

  ghost predicate NoneLonger(texts: seq<string>, n: nat) {
    forall k :: 0 <= k < |texts| ==> |texts[k]| <= n
  }

  lemma {:induction false} SegmentsNotLonger(s: string, d: char)
    ensures NoneLonger(Segments(s, d), |s|)
    decreases |s|
  {
    var i := Find(s, [d]);
    if i < |s| { SegmentsNotLonger(s[i + 1..], d); }
  }

  lemma {:induction false} CleanNotLonger(pieces: seq<string>, n: nat)
    requires NoneLonger(pieces, n)
    ensures NoneLonger(Clean(pieces), n)
  {
    if pieces != [] { CleanNotLonger(pieces[1..], n); }
  }

  lemma {:induction false} SplitNotLonger(s: string, d: char)
    ensures NoneLonger(Split(s, d), |s|)
  {
    SegmentsNotLonger(s, d);
    CleanNotLonger(Segments(s, d), |s|);
  }

  lemma {:induction false} ValueNotLonger(t: string)
    ensures |TrimQuotes(KeyValue(t).1)| <= |t|
  {
    SplitNotLonger(t, '=');
  }

  lemma {:induction false} ParamNotLonger(m1: string, k: nat)
    requires k < |Params(m1)|
    ensures |Params(m1)[k].1| <= |m1|
  {
    var t := ParamFrom(m1, k);
    ValueNotLonger(t);
    SplitNotLonger(m1, ';');
  }

  lemma {:induction false} DispositionParamsNotLonger(header: string)
    requires DispositionParams(header).Some?
    ensures IsOneLine(DispositionParams(header).value) && |DispositionParams(header).value| <= |header|
  {}

  /** A line that is short enough leaves a lesser file name. */
  lemma {:induction false} ShortLineIsLesser(file: FileInfo, header: string, n: nat)
    requires Lesser(file.filename, n) && |header| <= n
    ensures Lesser(HeaderLine(file, header).0.filename, n)
  {
    if !StartsWithIgnoreCase(header, CONTENT_TYPE) && DispositionParams(header).Some? {
      var m1 := DispositionParams(header).value;
      DispositionParamsNotLonger(header);
      ParamsArePlain(m1);
      forall k | 0 <= k < |Params(m1)| ensures |Params(m1)[k].1| <= n { ParamNotLonger(m1, k); }
      AppliedIsLesser(file, Params(m1), n);
    }
  }

  // the first line of a part, up to some point of the file name

  function NameStart(item: Item): string { NameParam(item) + (";" + " " + FILENAME_PREFIX) }

  function LineStart(item: Item): string {
    CONTENT_DISPOSITION + " " + FORM_DATA + " " + NameStart(item)
  }

  lemma {:induction false} LineStartFits(item: Item)
    requires item.filename != ""
    ensures DispositionLine(item) == LineStart(item) + (item.filename + "\"")
  {
    var h := CONTENT_DISPOSITION + " " + FORM_DATA + " ";
    var t := ";" + " " + FILENAME_PREFIX;
    assert ";" + " " + FilenameParam(item) == t + (item.filename + "\"");
    Regroup(NameParam(item), t, item.filename + "\"");
    Regroup(h, NameStart(item), item.filename + "\"");
  }

  lemma {:induction false} LineStartReads(item: Item, g: string)
    requires PlainParam(item.name)
    ensures DispositionParams(LineStart(item) + g)
         == if IsOneLine(NameStart(item) + g) then Some(NameStart(item) + g) else None
    ensures !StartsWithIgnoreCase(LineStart(item) + g, CONTENT_TYPE)
  {
    var value := NameStart(item) + g;
    var tail := FORM_DATA + (" " + value);
    assert LineStart(item) + g == CONTENT_DISPOSITION + (" " + tail);
    NotContentType(" " + tail);
    StartsWithItself(CONTENT_DISPOSITION, " " + tail);
    SkipOneSpace(tail);
    StartsWithItself(FORM_DATA, " " + value);
    SkipOneSpace(value);
  }

  /** The first text behind the name starts with `filename=`, so its key is just that. */
  lemma {:induction false} FilenameKey(t: string)
    requires StartsWith(t, "filename=")
    ensures TrimQuotes(KeyValue(t).0) == "filename"
  {
    assert t == "filename" + ['='] + t[9..];
    SegmentsOfCons("filename", '=', t[9..]);
    assert Clean(Segments(t, '='))[0] == Trim("filename");
  }

  lemma {:induction false} TrimKeepsStart(s: string, p: string)
    requires StartsWith(s, p) && p != "" && !IsBlank(p[0]) && !IsBlank(p[|p| - 1])
    ensures StartsWith(Trim(" " + s), p)
  {
    assert (" " + s)[1..] == s && s[0] == p[0];
    TrimRightDropsBlanks(s);
    assert s[|p| - 1] == s[..|p|][|p| - 1];
    assert !IsBlank(s[|p| - 1]);
    assert s[..|TrimRight(s)|][..|p|] == s[..|p|];
  }

  ghost predicate StarsAreShort(texts: seq<string>, n: int) {
    forall k :: 0 <= k < |texts| && TrimQuotes(KeyValue(texts[k]).0) == "filename*" ==> |texts[k]| <= n
  }

  lemma {:induction false} StarsOfConcat(a: seq<string>, b: seq<string>, n: int)
    requires StarsAreShort(a, n) && StarsAreShort(b, n)
    ensures StarsAreShort(a + b, n)
  {}

  lemma {:induction false} NameIsNoStar(item: Item, n: int)
    requires PlainParam(item.name)
    ensures StarsAreShort([NameParam(item)], n)
  {
    NameReads(item);
  }

  /** The file name's own text. */
  lemma {:induction false} FilenameIsNoStar(head: string, n: int)
    requires StartsWith(head, FILENAME_PREFIX)
    ensures StarsAreShort(Clean([" " + head]), n)
  {
    assert head[..9] == FILENAME_PREFIX[..9] == "filename=";
    TrimKeepsStart(head, "filename=");
    FilenameKey(Trim(" " + head));
    CleanOne(" " + head);
  }

  lemma {:induction false} StarsBehindFirst(first: string, tail: string)
    requires ';' !in first && StarsAreShort(Clean([first]), |tail|)
    ensures StarsAreShort(Split(first + [';'] + tail, ';'), |tail|)
  {
    SegmentsOfCons(first, ';', tail);
    SplitNotLonger(tail, ';');
    CleanCons(first, Segments(tail, ';'));
    StarsOfConcat(Clean([first]), Split(tail, ';'), |tail|);
  }

  lemma {:induction false} StarsAreShorter(texts: seq<string>, m: int, n: int)
    requires StarsAreShort(texts, m) && m <= n
    ensures StarsAreShort(texts, n)
  {}

  /** Behind the name: the first text is the file name's, and the others lie inside `g`. */
  lemma {:induction false} StarsBehindName(g: string)
    ensures StarsAreShort(Split(" " + FILENAME_PREFIX + g, ';'), |g| - 1)
  {
    var i := Find(g, [';']);
    BeforeFirst(g, ';');
    var head := FILENAME_PREFIX + g[..i];
    assert head[..|FILENAME_PREFIX|] == FILENAME_PREFIX && ';' !in " " + head;
    if i == |g| {
      assert " " + FILENAME_PREFIX + g == " " + head;
      SegmentsOfOne(" " + head, ';');
      FilenameIsNoStar(head, |g| - 1);
    } else {
      FoundChar(g, ';', i);
      assert " " + FILENAME_PREFIX + g == (" " + head) + [';'] + g[i + 1..];
      FilenameIsNoStar(head, |g[i + 1..]|);
      StarsBehindFirst(" " + head, g[i + 1..]);
      StarsAreShorter(Split(" " + FILENAME_PREFIX + g, ';'), |g[i + 1..]|, |g| - 1);
    }
  }

  lemma {:induction false} FoundChar(s: string, d: char, i: nat)
    requires i == Find(s, [d]) < |s|
    ensures s[i] == d
  {
    assert s[i..i + 1][0] == s[i];
  }

  lemma {:induction false} StarsOfLine(item: Item, g: string)
    requires PlainParam(item.name)
    ensures StarsAreShort(Split(NameStart(item) + g, ';'), |g| - 1)
  {
    PlainAround(NAME_PREFIX, item.name, ';');
    assert NameStart(item) + g == NameParam(item) + [';'] + (" " + FILENAME_PREFIX + g);
    SegmentsOfCons(NameParam(item), ';', " " + FILENAME_PREFIX + g);
    CleanOne(NameParam(item));
    CleanCons(NameParam(item), Segments(" " + FILENAME_PREFIX + g, ';'));
    NameIsNoStar(item, |g| - 1);
    StarsBehindName(g);
    StarsOfConcat([NameParam(item)], Split(" " + FILENAME_PREFIX + g, ';'), |g| - 1);
  }

  lemma {:induction false} ValuesAreLesser(file: FileInfo, m1: string, n: nat)
    requires Lesser(file.filename, n) && IsOneLine(m1) && StarsAreShort(Split(m1, ';'), n)
    ensures Lesser(ApplyParams(file, Params(m1)).0.filename, n)
  {
    ParamsArePlain(m1);
    forall k | 0 <= k < |Params(m1)| && Params(m1)[k].0 == "filename*" ensures |Params(m1)[k].1| <= n {
      var t := ParamFrom(m1, k);
      ValueNotLonger(t);
    }
    AppliedIsLesser(file, Params(m1), n);
  }

  lemma {:induction false} AppliedReadIsLesser(r: (FileInfo, bool), m1: Option<string>, n: nat)
    requires r == if m1 == None then (NO_FILE, false) else ApplyParams(NO_FILE, Params(m1.value))
    requires m1.Some? ==> IsOneLine(m1.value) && StarsAreShort(Split(m1.value, ';'), n)
    ensures Lesser(r.0.filename, n)
  {
    if m1.Some? { ValuesAreLesser(NO_FILE, m1.value, n); }
  }

  lemma {:induction false} ReadIsLesser(header: string, m1: Option<string>, n: nat)
    requires !StartsWithIgnoreCase(header, CONTENT_TYPE) && DispositionParams(header) == m1
    requires m1.Some? ==> IsOneLine(m1.value) && StarsAreShort(Split(m1.value, ';'), n)
    ensures Lesser(HeaderLine(NO_FILE, header).0.filename, n)
  {
    DispositionIsApplied(NO_FILE, header, m1);
    AppliedReadIsLesser(HeaderLine(NO_FILE, header), m1, n);
  }

  lemma {:induction false} StarsOfStart(item: Item, g: string, value: string, n: nat)
    requires PlainParam(item.name) && |g| <= n + 1 && value == NameStart(item) + g
    ensures StarsAreShort(Split(value, ';'), n)
  {
    StarsOfLine(item, g);
    StarsAreShorter(Split(value, ';'), |g| - 1, n);
  }

  /** The first line, cut anywhere in its file name or whole, leaves a lesser file name. */
  lemma {:induction false} FirstLineIsLesser(item: Item, g: string, n: nat)
    requires PlainParam(item.name) && |g| <= n + 1
    ensures Lesser(HeaderLine(NO_FILE, LineStart(item) + g).0.filename, n)
  {
    LineStartReads(item, g);
    StarsOfStart(item, g, NameStart(item) + g, n);
    ReadIsLesser(LineStart(item) + g, DispositionParams(LineStart(item) + g), n);
  }

  // the lines of a part whose file name gets lost

  /** Nothing more is reported, or the next report is a part with a lesser file name. */
  ghost predicate LosesName(p: PState, o: Outcome, n: nat) {
    || o.p.log == p.log
    || (|o.p.log| > |p.log| && o.p.log[|p.log|].Header? && Lesser(o.p.log[|p.log|].file.filename, n))
  }

  lemma {:induction false} RunExtends(p: PState, inLines: bool, accept: Receiver)
    requires Accepts(accept)
    ensures p.log <= Run(p, inLines, accept).p.log
    decreases |p.window|, Rank(p, inLines)
  {
    if p.window != "" {
      var delta := RoundEmits(p, p.log, inLines, accept);
      match Round(p, inLines, accept)
      case Return(_, _) =>
      case Continue(q, lines) => RunExtends(q, lines, accept);
    }
  }

  lemma {:induction false} BlankLosesName(p: PState, rest: string, n: nat, accept: Receiver)
    requires Accepts(accept) && p.phase == Headers && p.window == CRLF + rest && Lesser(p.file.filename, n)
    ensures LosesName(p, Run(p, true, accept), n)
  {
    BlankLeads(p, rest, false, accept);
    RunExtends(p.(window := rest, phase := Body, log := p.log + [Header(p.file)]), false, accept);
  }

  /** One line, whatever it says: the parser refuses it or goes on behind it. */
  lemma {:induction false} AnyLine(p: PState, line: string, rest: string, accept: Receiver)
    requires p.phase == Headers && p.window == line + CRLF + rest && line != "" && !Contains(line, CRLF)
    ensures var r := HeaderLine(p.file, line);
            if r.1 then Run(p, true, accept) == Run(p.(file := r.0, window := rest), true, accept)
            else Run(p, true, accept) == Outcome(p.(file := r.0, valid := false), false)
  {
    FindLineEnd(line, rest);
  }

  /** Behind the line with the file name: the type, if any, and the empty line. */
  lemma {:induction false} TypedLosesName(p: PState, item: Item, rest: string, n: nat, accept: Receiver)
    requires Accepts(accept) && p.phase == Headers && Lesser(p.file.filename, n)
    requires Trimmed(item.contentType) && !Contains(item.contentType, CRLF)
    requires p.window == (if item.contentType == "" then "" else ContentTypeLine(item) + CRLF) + (CRLF + rest)
    ensures LosesName(p, Run(p, true, accept), n)
  {
    if item.contentType == "" {
      assert p.window == CRLF + rest;
      BlankLosesName(p, rest, n, accept);
    } else {
      assert ContentTypeLine(item) == (CONTENT_TYPE_NAME + " ") + item.contentType;
      PrefixNoCrlf(CONTENT_TYPE_NAME + " ", item.contentType);
      ContentTypeLineReads(p.file, item);
      AnyLine(p, ContentTypeLine(item), CRLF + rest, accept);
      BlankLosesName(p.(file := p.file.(contentType := item.contentType), window := CRLF + rest), rest, n, accept);
    }
  }

  /** The lines that lie inside the file name, up to the quote behind it. */
  lemma {:induction false} TailLosesName(p: PState, tail: string, item: Item, rest: string, n: nat, accept: Receiver)
    requires Accepts(accept) && p.phase == Headers && Lesser(p.file.filename, n) && |tail| <= n
    requires Trimmed(item.contentType) && !Contains(item.contentType, CRLF)
    requires p.window == tail + CRLF + TypedRest(item, rest)
    ensures LosesName(p, Run(p, true, accept), n)
    decreases |tail|
  {
    var pos := Find(tail, CRLF);
    if tail == "" {
      BlankLosesName(p, TypedRest(item, rest), n, accept);
    } else if pos == |tail| {
      assert !Contains(tail, CRLF);
      ShortLineIsLesser(p.file, tail, n);
      AnyLine(p, tail, TypedRest(item, rest), accept);
      TypedLosesName(p.(file := HeaderLine(p.file, tail).0, window := TypedRest(item, rest)), item, rest, n, accept);
    } else {
      var (line, more) := (tail[..pos], tail[pos + |CRLF|..]);
      CutAt(tail, pos, TypedRest(item, rest));
      if pos == 0 {
        BlankLosesName(p, more + CRLF + TypedRest(item, rest), n, accept);
      } else {
        BeforeIsFree(tail, CRLF, pos);
        ShortLineIsLesser(p.file, line, n);
        AnyLine(p, line, more + CRLF + TypedRest(item, rest), accept);
        TailLosesName(p.(file := HeaderLine(p.file, line).0, window := more + CRLF + TypedRest(item, rest)), more, item,
                      rest, n, accept);
      }
    }
  }

  function TypedRest(item: Item, rest: string): string {
    (if item.contentType == "" then "" else ContentTypeLine(item) + CRLF) + (CRLF + rest)
  }

  lemma {:induction false} CutAt(tail: string, pos: nat, rest: string)
    requires pos == Find(tail, CRLF) < |tail|
    ensures tail + CRLF + rest == tail[..pos] + CRLF + (tail[pos + |CRLF|..] + CRLF + rest)
    ensures pos == 0 ==> tail + CRLF + rest == CRLF + (tail[|CRLF|..] + CRLF + rest)
  {
    assert tail == tail[..pos] + tail[pos..pos + |CRLF|] + tail[pos + |CRLF|..];
  }

  lemma {:induction false} EnterAny(p: PState, line: string, rest: string, q: PState, accept: Receiver)
    requires p.phase == NewEntry && p.window == line + CRLF + rest && !Contains(line, CRLF)
    requires q == p.(file := NO_FILE, phase := Headers)
    ensures if |line| <= HEADER_MAX_LENGTH then Run(p, false, accept) == Run(q, true, accept)
            else Run(p, false, accept) == Outcome(q, false)
  {
    FindLineEnd(line, rest);
    RunContinues(p, false, q, false, accept);
    if |line| <= HEADER_MAX_LENGTH { RunContinues(q, false, q, true, accept); }
  }

  /** The first line of the part, cut off in its file name or whole, and what the lines behind it lose. */
  lemma {:induction false} FirstLineLosesName(p: PState, item: Item, g: string, after: string, tail: Option<string>,
                                              rest: string, n: nat, accept: Receiver)
    requires Accepts(accept) && p.phase == NewEntry && PlainParam(item.name) && |g| <= n + 1
    requires Trimmed(item.contentType) && !Contains(item.contentType, CRLF)
    requires p.window == LineStart(item) + g + CRLF + after && !Contains(LineStart(item) + g, CRLF)
    requires match tail
             case None => after == TypedRest(item, rest)
             case Some(t) => |t| <= n && after == t + CRLF + TypedRest(item, rest)
    ensures LosesName(p, Run(p, false, accept), n)
  {
    var line := LineStart(item) + g;
    var q := p.(file := NO_FILE, phase := Headers);
    EnterAny(p, line, after, q, accept);
    FirstLineIsLesser(item, g, n);
    AnyLine(q, line, after, accept);
    var r := q.(file := HeaderLine(NO_FILE, line).0, window := after);
    match tail
    case None => TypedLosesName(r, item, rest, n, accept);
    case Some(t) => TailLosesName(r, t, item, rest, n, accept);
  }

  lemma {:induction false} LineStartNoCr(item: Item)
    requires PlainParam(item.name)
    ensures '\r' !in LineStart(item)
  {
    assert forall k :: 0 <= k < |NameParam(item)| ==> NameParam(item)[k] != '\r';
    assert forall k :: 0 <= k < |NameStart(item)| ==> NameStart(item)[k] != '\r';
    var h := CONTENT_DISPOSITION + " " + FORM_DATA + " ";
    assert '\r' !in h;
  }

  lemma {:induction false} Glue(start: string, g: string, pos: nat, rest: string)
    requires pos == Find(g, CRLF)
    ensures pos < |g| ==>
              start + g + CRLF + rest == start + g[..pos] + CRLF + (g[pos + |CRLF|..] + CRLF + rest)
  {
    if pos < |g| {
      CutAt(g, pos, rest);
      var t := g[pos + |CRLF|..] + CRLF + rest;
      assert start + g + CRLF + rest == start + (g + CRLF + rest);
      assert start + g[..pos] + CRLF + t == start + (g[..pos] + CRLF + t);
    }
  }

  /** A part whose file name has a line break, a semicolon or an equals sign is not reported as it was. */
  lemma {:induction false} LostPart(p: PState, item: Item, rest: string, accept: Receiver)
    requires Accepts(accept) && p.phase == NewEntry && p.window == Fields(item) + rest
    requires PlainParam(item.name) && !PlainParam(item.filename)
    requires Trimmed(item.contentType) && !Contains(item.contentType, CRLF)
    ensures LosesName(p, Run(p, false, accept), |item.filename|)
  {
    var (start, g, after) := (LineStart(item), item.filename + "\"", TypedRest(item, rest));
    LineStartFits(item);
    LineStartNoCr(item);
    assert p.window == start + g + CRLF + after;
    var pos := Find(g, CRLF);
    if pos == |g| {
      assert !Contains(g, CRLF);
      PrefixNoCrlf(start, g);
      FirstLineLosesName(p, item, g, after, None, rest, |item.filename|, accept);
    } else {
      BeforeIsFree(g, CRLF, pos);
      PrefixNoCrlf(start, g[..pos]);
      Glue(start, g, pos, after);
      var t := g[pos + |CRLF|..];
      FirstLineLosesName(p, item, g[..pos], t + CRLF + after, Some(t), rest, |item.filename|, accept);
    }
  }

  // -------------------------------------------------------------- the theorem

  /** What every report has; see `RunReports`. */
  ghost predicate ReportableItem(item: Item, boundary: string) {
    && PlainParam(item.name) && Trimmed(item.contentType) && !Contains(item.contentType, CRLF)
    && !Contains(item.content, CrlfDashBoundary(boundary))
  }

  predicate Intact(item: Item) {
    PlainParam(item.filename) && |DispositionLine(item)| <= HEADER_MAX_LENGTH
  }

  lemma {:induction false} LosesEvents(p: PState, items: seq<Item>, o: Outcome)
    requires items != [] && !PlainParam(items[0].filename) && LosesName(p, o, |items[0].filename|)
    ensures o.p.log != p.log + Events(items)
  {
    EventsAt(items, 0);
    assert (p.log + Events(items))[|p.log|] == Events(items)[0];
  }

  lemma {:induction false} LongPart(p: PState, item: Item, rest: string, accept: Receiver)
    requires p.phase == NewEntry && p.window == Fields(item) + rest
    requires PlainParam(item.name) && PlainParam(item.filename) && !Contains(item.contentType, CRLF)
    requires |DispositionLine(item)| > HEADER_MAX_LENGTH
    ensures !Run(p, false, accept).ok
  {
    LinesHaveNoCrlf(item);
    assert p.window == DispositionLine(item) + CRLF + TypedRest(item, rest);
    EnterAny(p, DispositionLine(item), TypedRest(item, rest), p.(file := NO_FILE, phase := Headers), accept);
  }

  /** A first line that is too long, or a file name that is not plain, spoils its part. */
  lemma {:induction false} BrokenPart(p: PState, items: seq<Item>, rest: string, accept: Receiver)
    requires Accepts(accept) && p.phase == NewEntry && items != []
    requires ReportableItem(items[0], p.boundary) && !Intact(items[0])
    requires p.window == Fields(items[0]) + rest
    ensures var o := Run(p, false, accept); !(o.ok && o.p.log == p.log + Events(items))
  {
    if PlainParam(items[0].filename) {
      LongPart(p, items[0], rest, accept);
    } else {
      LostPart(p, items[0], rest, accept);
      LosesEvents(p, items, Run(p, false, accept));
    }
  }

  /** Up to the first part that is spoilt the parser reads what was written. */
  lemma {:induction false} NotAllDelivered(p: PState, items: seq<Item>, accept: Receiver)
    requires Accepts(accept) && p.phase == NewEntry && BoundaryCharsValid(p.boundary) && items != []
    requires forall i :: 0 <= i < |items| ==> ReportableItem(items[i], p.boundary)
    requires exists i :: 0 <= i < |items| && !Intact(items[i])
    requires p.window == BodyRest(items, p.boundary)
    ensures var o := Run(p, false, accept); !(o.ok && o.p.log == p.log + Events(items))
    decreases |items|
  {
    var item := items[0];
    var tail := if |items| == 1 then DASH + CRLF else CRLF + BodyRest(items[1..], p.boundary);
    if Intact(item) {
      var more := CRLF + BodyRest(items[1..], p.boundary);
      PartLeads(p, item, more, false, accept);
      var q := p.(file := FileOf(item), window := more, phase := AfterBoundary,
                  log := p.log + [Header(FileOf(item)), Content(item.content)]);
      var r := q.(window := BodyRest(items[1..], p.boundary), phase := NewEntry);
      NextLeads(q, r.window, false, accept);
      NotAllDelivered(r, items[1..], accept);
      EventsCons(p.log, items);
    } else {
      BrokenPart(p, items, item.content + CrlfDashBoundary(p.boundary) + tail, accept);
    }
  }

  lemma {:induction false} EventsAt(items: seq<Item>, i: nat)
    requires i < |items|
    ensures |Events(items)| == 2 * |items|
    ensures Events(items)[2 * i] == Header(FileOf(items[i])) && Events(items)[2 * i + 1] == Content(items[i].content)
  {
    if i > 0 { EventsAt(items[1..], i - 1); } else if |items| > 1 { EventsAt(items[1..], 0); }
  }

  lemma {:induction false} DeliveredIsReportable(items: seq<Item>, boundary: string, accept: Receiver)
    requires Feed(Start(boundary), Serialize(items, boundary), accept).p.log == Events(items)
    ensures forall i :: 0 <= i < |items| ==> ReportableItem(items[i], boundary)
  {
    var o := Feed(Start(boundary), Serialize(items, boundary), accept);
    NoFileIsProper();
    RunReports(Append(Start(boundary), Serialize(items, boundary)), false, accept);
    forall i | 0 <= i < |items| ensures ReportableItem(items[i], boundary) {
      EventsAt(items, i);
      assert Reportable(o.p.log[2 * i], CrlfDashBoundary(boundary));
      assert Reportable(o.p.log[2 * i + 1], CrlfDashBoundary(boundary));
    }
  }

  lemma {:induction false} DeliveredIsIntact(items: seq<Item>, boundary: string, accept: Receiver)
    requires Accepts(accept) && BoundaryCharsValid(boundary) && items != []
    requires forall i :: 0 <= i < |items| ==> ReportableItem(items[i], boundary)
    requires var o := Feed(Start(boundary), Serialize(items, boundary), accept); o.ok && o.p.log == Events(items)
    ensures forall i :: 0 <= i < |items| ==> Intact(items[i])
  {
    SerializeIsRest(items, boundary);
    var p := Append(Start(boundary), Serialize(items, boundary));
    var q := p.(window := BodyRest(items, boundary), phase := NewEntry);
    OpeningLeads(p, q.window, false, accept);
    assert q.log + Events(items) == Events(items);
    if exists i :: 0 <= i < |items| && !Intact(items[i]) { NotAllDelivered(q, items, accept); }
  }

  /** Exact round trip: the parser ends valid having reported exactly the items if and only if every name and
      file name is plain, every type is trimmed and without line break, no content has the delimiter, and the
      first header line of every part is within the limit. */
  lemma {:induction false} RoundTripExactly(items: seq<Item>, boundary: string, accept: Receiver)
    requires Accepts(accept) && BoundaryCharsValid(boundary) && items != []
    ensures var o := Feed(Start(boundary), Serialize(items, boundary), accept);
            o.ok && o.p.valid && o.p.log == Events(items) <==> AllCarriable(items, boundary) && FirstLinesFit(items)
  {
    var o := Feed(Start(boundary), Serialize(items, boundary), accept);
    if AllCarriable(items, boundary) && FirstLinesFit(items) {
      ParseOfSerialize(items, boundary, accept);
    }
    if o.ok && o.p.log == Events(items) {
      DeliveredIsReportable(items, boundary, accept);
      DeliveredIsIntact(items, boundary, accept);
    }
  }
}
