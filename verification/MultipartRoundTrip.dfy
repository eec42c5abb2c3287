/** The multipart serializer of httplib.h, and that the parser undoes it. */
module MultipartRoundTrip {
  import opened Wrappers
  import opened Bytes
  import opened TextCodec
  import opened Multipart
  import opened MultipartPieces

  datatype Item = Item(name: string, content: string, filename: string, contentType: string)

  const NAME_PREFIX := "name=\""
  const FILENAME_PREFIX := "filename=\""
  const CONTENT_TYPE_NAME := "Content-Type:"

  // ------------------------------------------------------------- serializer

  function NameParam(item: Item): string { NAME_PREFIX + item.name + "\"" }

  function FilenameParam(item: Item): string { FILENAME_PREFIX + item.filename + "\"" }

  function DispositionValue(item: Item): string {
    NameParam(item) + if item.filename == "" then "" else ";" + " " + FilenameParam(item)
  }

  function DispositionLine(item: Item): string {
    CONTENT_DISPOSITION + " " + FORM_DATA + " " + DispositionValue(item)
  }

  function ContentTypeLine(item: Item): string {
    CONTENT_TYPE_NAME + " " + item.contentType
  }

  /** The header lines of a part with the empty line that ends them. */
  function Fields(item: Item): string {
    DispositionLine(item) + CRLF
    + (if item.contentType == "" then "" else ContentTypeLine(item) + CRLF)
    + CRLF
  }

  /** `serialize_multipart_formdata_item_begin`. */
  function ItemBegin(item: Item, boundary: string): string {
    DashBoundaryCrlf(boundary) + Fields(item)
  }

  /** `serialize_multipart_formdata_finish`. */
  function Finish(boundary: string): string { DASH + boundary + DASH + CRLF }

  function SerializeItems(items: seq<Item>, boundary: string): string {
    if items == [] then ""
    else ItemBegin(items[0], boundary) + items[0].content + CRLF + SerializeItems(items[1..], boundary)
  }

  function Serialize(items: seq<Item>, boundary: string): string {
    SerializeItems(items, boundary) + Finish(boundary)
  }

  lemma {:induction false} SerializeItemsCons(item: Item, rest: seq<Item>, boundary: string)
    ensures SerializeItems([item] + rest, boundary)
         == ItemBegin(item, boundary) + item.content + CRLF + SerializeItems(rest, boundary)
  {
    assert ([item] + rest)[1..] == rest;
  }

  lemma {:induction false} SerializeItemsAppend(a: seq<Item>, b: seq<Item>, boundary: string)
    ensures SerializeItems(a + b, boundary) == SerializeItems(a, boundary) + SerializeItems(b, boundary)
  {
    if a == [] {
      assert a + b == b;
    } else {
      assert a + b == [a[0]] + (a[1..] + b) && a == [a[0]] + a[1..];
      SerializeItemsCons(a[0], a[1..] + b, boundary);
      SerializeItemsAppend(a[1..], b, boundary);
      Regroup(ItemBegin(a[0], boundary) + a[0].content + CRLF, SerializeItems(a[1..], boundary),
              SerializeItems(b, boundary));
    }
  }

  lemma {:induction false} SerializeUpTo(items: seq<Item>, i: nat, boundary: string)
    requires i < |items|
    ensures SerializeItems(items[..i + 1], boundary)
         == SerializeItems(items[..i], boundary) + (ItemBegin(items[i], boundary) + items[i].content + CRLF)
  {
    var text := ItemBegin(items[i], boundary) + items[i].content + CRLF;
    SerializeItemsAppend(items[..i], [items[i]], boundary);
    SerializeItemsCons(items[i], [], boundary);
    assert items[..i] + [items[i]] == items[..i + 1] && [items[i]] + [] == [items[i]];
    assert text + "" == text;
  }

  /** `serialize_multipart_formdata`. */
  method SerializeMultipartFormData(items: seq<Item>, boundary: string, finish: bool) returns (body: string)
    ensures body == if finish then Serialize(items, boundary) else SerializeItems(items, boundary)
  {
    body := "";
    for i := 0 to |items|
      invariant body == SerializeItems(items[..i], boundary)
    {
      SerializeUpTo(items, i, boundary);
      body := body + (ItemBegin(items[i], boundary) + items[i].content + CRLF);
    }
    assert items[..|items|] == items;
    if finish { body := body + Finish(boundary); }
  }

  // ---------------------------------------------------- what can be carried

  /** `is_multipart_boundary_chars_valid`. */
  predicate BoundaryCharsValid(boundary: string) {
    forall i :: 0 <= i < |boundary| ==> IsAlnum(boundary[i]) || boundary[i] == '-' || boundary[i] == '_'
  }

  /** Free of the characters that end a parameter or a line. */
  predicate PlainParam(s: string) {
    forall i :: 0 <= i < |s| ==> s[i] != '\r' && s[i] != '\n' && s[i] != ';' && s[i] != '='
  }

  ghost predicate Carriable(item: Item, boundary: string) {
    && PlainParam(item.name) && PlainParam(item.filename)
    && Trimmed(item.contentType) && !Contains(item.contentType, CRLF)
    && !Contains(item.content, CrlfDashBoundary(boundary))
  }

  function FileOf(item: Item): FileInfo { FileInfo(item.name, item.filename, item.contentType) }

  // ----------------------------------------------------------- header lines

  lemma {:induction false} SkipOneSpace(s: string)
    requires s != "" && !IsSpace(s[0])
    ensures SkipSpaces(" " + s) == s
  {
    assert (" " + s)[1..] == s;
  }

  lemma {:induction false} TrimOneSpace(s: string)
    requires s != "" && Trimmed(s)
    ensures Trim(" " + s) == s
  {
    assert (" " + s)[1..] == s;
  }

  lemma {:induction false} StartsWithItself(b: string, rest: string)
    ensures StartsWithIgnoreCase(b + rest, b)
    ensures (b + rest)[|b|..] == rest
  {}

  /** A parameter `key="value"` is read back. */
  lemma {:induction false} ParamReads(key: string, value: string)
    requires key != "" && '=' !in key && Trimmed(key) && key[0] != '"' && PlainParam(value)
    ensures var kv := key + "=" + ("\"" + value + "\"");
            KeyValue(kv) == (key, "\"" + value + "\"") && TrimQuotes(KeyValue(kv).1) == value
            && TrimQuotes(KeyValue(kv).0) == key
  {
    var quoted := "\"" + value + "\"";
    var kv := key + "=" + quoted;
    SegmentsOfCons(key, '=', quoted);
    SegmentsOfOne(quoted, '=');
    CleanTwo(key, quoted);
    assert quoted[1..|quoted| - 1] == value;
  }

  lemma {:induction false} ParamIsOneLine(prefix: string, value: string)
    requires IsOneLine(prefix) && PlainParam(value)
    ensures IsOneLine(prefix + value + "\"")
  {}

  lemma {:induction false} OneLineConcat(a: string, b: string)
    requires IsOneLine(a) && IsOneLine(b)
    ensures IsOneLine(a + b)
  {}

  lemma {:induction false} DispositionValueIsOneLine(item: Item)
    requires PlainParam(item.name) && PlainParam(item.filename)
    ensures IsOneLine(DispositionValue(item))
  {
    ParamIsOneLine(NAME_PREFIX, item.name);
    ParamIsOneLine(FILENAME_PREFIX, item.filename);
    OneLineConcat(";" + " ", FilenameParam(item));
    OneLineConcat(NameParam(item), ";" + " " + FilenameParam(item));
    OneLineConcat(NameParam(item), "");
  }

  lemma {:induction false} DispositionReads(item: Item)
    requires PlainParam(item.name) && PlainParam(item.filename)
    ensures DispositionParams(DispositionLine(item)) == Some(DispositionValue(item))
  {
    var value := DispositionValue(item);
    var tail := FORM_DATA + (" " + value);
    assert DispositionLine(item) == CONTENT_DISPOSITION + (" " + tail);
    StartsWithItself(CONTENT_DISPOSITION, " " + tail);
    SkipOneSpace(tail);
    StartsWithItself(FORM_DATA, " " + value);
    SkipOneSpace(value);
    DispositionValueIsOneLine(item);
  }

  lemma {:induction false} SplitOfTwo(a: string, b: string, d: char)
    requires a != "" && Trimmed(a) && d !in a && b != "" && Trimmed(b) && d !in b && d != ' '
    ensures Split(a + [d] + (" " + b), d) == [a, b]
  {
    SegmentsOfCons(a, d, " " + b);
    SegmentsOfOne(" " + b, d);
    TrimOneSpace(b);
    CleanTwo(a, " " + b);
  }

  lemma {:induction false} PlainAround(prefix: string, value: string, d: char)
    requires PlainParam(value) && d == ';' && d !in prefix && prefix != "" && !IsBlank(prefix[0])
    ensures var t := prefix + value + "\""; d !in t && t != "" && Trimmed(t)
  {}

  /** The separators of the parameter list are where the serializer put them. */
  lemma {:induction false} DispositionSplits(item: Item)
    requires PlainParam(item.name) && PlainParam(item.filename)
    ensures Split(DispositionValue(item), ';')
         == if item.filename == "" then [NameParam(item)] else [NameParam(item), FilenameParam(item)]
  {
    PlainAround(NAME_PREFIX, item.name, ';');
    if item.filename == "" {
      assert DispositionValue(item) == NameParam(item);
      SegmentsOfOne(NameParam(item), ';');
      CleanOne(NameParam(item));
    } else {
      PlainAround(FILENAME_PREFIX, item.filename, ';');
      assert DispositionValue(item) == NameParam(item) + [';'] + (" " + FilenameParam(item));
      SplitOfTwo(NameParam(item), FilenameParam(item), ';');
    }
  }

  lemma {:induction false} ParamsOfOne(m1: string, a: string)
    requires Split(m1, ';') == [a] && KeyValue(a).0 != ""
    ensures Params(m1) == [(TrimQuotes(KeyValue(a).0), TrimQuotes(KeyValue(a).1))]
  {
    DedupKeepsDistinct([a]);
    assert KeyValues([a]) == [KeyValue(a)];
  }

  lemma {:induction false} ParamsOfTwo(m1: string, a: string, b: string)
    requires Split(m1, ';') == [a, b] && a != b && KeyValue(a).0 != "" && KeyValue(b).0 != ""
    ensures Params(m1) == [(TrimQuotes(KeyValue(a).0), TrimQuotes(KeyValue(a).1)),
                           (TrimQuotes(KeyValue(b).0), TrimQuotes(KeyValue(b).1))]
  {
    DedupKeepsDistinct([a, b]);
    assert [a, b][1..] == [b];
    assert KeyValues([b]) == [KeyValue(b)];
    assert KeyValues([a, b]) == [KeyValue(a), KeyValue(b)];
  }

  lemma {:induction false} NameReads(item: Item)
    requires PlainParam(item.name)
    ensures var kv := KeyValue(NameParam(item));
            kv.0 != "" && TrimQuotes(kv.0) == "name" && TrimQuotes(kv.1) == item.name
  {
    assert NameParam(item) == "name" + "=" + ("\"" + item.name + "\"");
    ParamReads("name", item.name);
  }

  lemma {:induction false} FilenameReads(item: Item)
    requires PlainParam(item.filename)
    ensures var kv := KeyValue(FilenameParam(item));
            kv.0 != "" && TrimQuotes(kv.0) == "filename" && TrimQuotes(kv.1) == item.filename
  {
    assert FilenameParam(item) == "filename" + "=" + ("\"" + item.filename + "\"");
    ParamReads("filename", item.filename);
  }

  lemma {:induction false} ParamsRead(item: Item)
    requires PlainParam(item.name) && PlainParam(item.filename)
    ensures Params(DispositionValue(item))
         == if item.filename == "" then [("name", item.name)] else [("name", item.name), ("filename", item.filename)]
  {
    DispositionSplits(item);
    NameReads(item);
    FilenameReads(item);
    if item.filename == "" {
      ParamsOfOne(DispositionValue(item), NameParam(item));
    } else {
      assert NameParam(item)[0] != FilenameParam(item)[0];
      ParamsOfTwo(DispositionValue(item), NameParam(item), FilenameParam(item));
    }
  }

  lemma {:induction false} ApplyRead(file: FileInfo, name: string, filename: string)
    ensures ApplyParams(file, [("name", name), ("filename", filename)])
         == (file.(name := name, filename := filename), true)
    ensures ApplyParams(file, [("name", name)]) == (file.(name := name), true)
  {
    var params := [("name", name), ("filename", filename)];
    assert params[1..] == [("filename", filename)];
    assert Lookup(params, "filename") == Lookup(params[1..], "filename");
    assert Lookup(params, "filename*") == Lookup(params[1..], "filename*") == None;
    assert Lookup([("name", name)], "filename") == None == Lookup([("name", name)], "filename*");
  }

  lemma {:induction false} NotContentType(rest: string)
    ensures !StartsWithIgnoreCase(CONTENT_DISPOSITION + rest, CONTENT_TYPE)
  {
    var line := CONTENT_DISPOSITION + rest;
    assert line[8] == 'D' && CONTENT_TYPE[8] == 't';
    assert ToLower(line[8]) != ToLower(CONTENT_TYPE[8]);
  }

  lemma {:induction false} DispositionIsApplied(file: FileInfo, header: string, m1: Option<string>)
    requires !StartsWithIgnoreCase(header, CONTENT_TYPE) && m1 == DispositionParams(header)
    ensures HeaderLine(file, header) == if m1 == None then (file, false) else ApplyParams(file, Params(m1.value))
  {}

  lemma {:induction false} DispositionIsNoType(item: Item)
    ensures !StartsWithIgnoreCase(DispositionLine(item), CONTENT_TYPE)
  {
    assert DispositionLine(item) == CONTENT_DISPOSITION + (" " + FORM_DATA + " " + DispositionValue(item));
    NotContentType(" " + FORM_DATA + " " + DispositionValue(item));
  }

  lemma {:induction false} DispositionApplies(item: Item)
    requires PlainParam(item.name) && PlainParam(item.filename)
    ensures ApplyParams(NO_FILE, Params(DispositionValue(item))) == (FileInfo(item.name, item.filename, ""), true)
  {
    ParamsRead(item);
    ApplyRead(NO_FILE, item.name, item.filename);
  }

  /** The disposition line of a part gives back its name and file name. */
  lemma {:induction false} DispositionLineReads(item: Item)
    requires PlainParam(item.name) && PlainParam(item.filename)
    ensures HeaderLine(NO_FILE, DispositionLine(item)) == (FileInfo(item.name, item.filename, ""), true)
  {
    DispositionIsNoType(item);
    DispositionReads(item);
    DispositionIsApplied(NO_FILE, DispositionLine(item), Some(DispositionValue(item)));
    DispositionApplies(item);
  }

  lemma {:induction false} ContentTypeNameMatches(rest: string)
    ensures StartsWithIgnoreCase(CONTENT_TYPE_NAME + rest, CONTENT_TYPE)
  {
    var line := CONTENT_TYPE_NAME + rest;
    assert line[0] == 'C' && line[1] == 'o' && line[2] == 'n' && line[3] == 't' && line[4] == 'e';
    assert line[5] == 'n' && line[6] == 't' && line[7] == '-' && line[8] == 'T' && line[9] == 'y';
    assert line[10] == 'p' && line[11] == 'e' && line[12] == ':';
  }

  lemma {:induction false} ContentTypeLineReads(file: FileInfo, item: Item)
    requires item.contentType != "" && Trimmed(item.contentType)
    ensures HeaderLine(file, ContentTypeLine(item)) == (file.(contentType := item.contentType), true)
  {
    assert ContentTypeLine(item) == CONTENT_TYPE_NAME + (" " + item.contentType);
    ContentTypeNameMatches(" " + item.contentType);
    assert ContentTypeLine(item)[|CONTENT_TYPE|..] == " " + item.contentType;
    TrimOneSpace(item.contentType);
  }

  // ------------------------------------------------- the rounds on one part

  /** The rounds from `p` come to `q`; if the lines between are short, they are regular as well. */
  ghost predicate Leads(p: PState, pLines: bool, q: PState, qLines: bool, short: bool, accept: Receiver) {
    && Run(p, pLines, accept) == Run(q, qLines, accept)
    && (short && Regular(q, qLines, accept) ==> Regular(p, pLines, accept))
  }

  lemma {:induction false} LeadsTrans(p: PState, pl: bool, q: PState, ql: bool, r: PState, rl: bool, short: bool,
                                      accept: Receiver)
    requires Leads(p, pl, q, ql, short, accept) && Leads(q, ql, r, rl, short, accept)
    ensures Leads(p, pl, r, rl, short, accept)
  {}

  lemma {:induction false} FindLineEnd(line: string, rest: string)
    requires !Contains(line, CRLF)
    ensures var w := line + CRLF + rest;
            Find(w, CRLF) == |line| < |w| && w[..|line|] == line && w[|line| + |CRLF|..] == rest
  {
    FindAfterText(line, CRLF, rest);
  }

  /** A new entry resets the pending file and enters the header phase. */
  lemma {:induction false} EntryLeads(p: PState, line: string, rest: string, short: bool, accept: Receiver)
    requires p.phase == NewEntry && p.window == line + CRLF + rest && !Contains(line, CRLF)
    requires |line| <= HEADER_MAX_LENGTH && (short ==> |line| < HEADER_MAX_LENGTH)
    ensures Leads(p, false, p.(file := NO_FILE, phase := Headers), true, short, accept)
  {
    FindLineEnd(line, rest);
    var q := p.(file := NO_FILE, phase := Headers);
    assert Round(p, false, accept) == Continue(q, false);
    assert Round(q, false, accept) == Continue(q, true);
  }

  lemma {:induction false} LineLeads(p: PState, line: string, rest: string, file: FileInfo, short: bool,
                                     accept: Receiver)
    requires p.phase == Headers && p.window == line + CRLF + rest && line != "" && !Contains(line, CRLF)
    requires HeaderLine(p.file, line) == (file, true)
    requires short ==> |line| < HEADER_MAX_LENGTH
    ensures Leads(p, true, p.(file := file, window := rest), true, short, accept)
  {
    FindLineEnd(line, rest);
    assert Round(p, true, accept) == Continue(p.(file := file, window := rest), true);
  }

  lemma {:induction false} BlankLeads(p: PState, rest: string, short: bool, accept: Receiver)
    requires Accepts(accept) && p.phase == Headers && p.window == CRLF + rest
    ensures Leads(p, true, p.(window := rest, phase := Body, log := p.log + [Header(p.file)]), false, short, accept)
  {
    assert "" + CRLF + rest == CRLF + rest;
    FindLineEnd("", rest);
    assert Round(p, true, accept)
        == Continue(p.(window := rest, phase := Body, log := p.log + [Header(p.file)]), false);
  }

  /** No character of the delimiter but its first is a CR. */
  lemma {:induction false} DelimiterHasOneCr(boundary: string)
    requires BoundaryCharsValid(boundary)
    ensures var d := CrlfDashBoundary(boundary);
            d[0] == '\r' && forall k :: 0 < k < |d| ==> d[k] != d[0]
  {
    var d := CrlfDashBoundary(boundary);
    assert d[1] == '\n' && d[2] == '-' && d[3] == '-';
    forall k | 4 <= k < |d| ensures d[k] != '\r' {
      assert d[k] == boundary[k - 4];
    }
  }

  lemma {:induction false} ContentLeads(p: PState, content: string, rest: string, short: bool, accept: Receiver)
    requires Accepts(accept) && p.phase == Body && BoundaryCharsValid(p.boundary)
    requires !Contains(content, CrlfDashBoundary(p.boundary))
    requires p.window == content + CrlfDashBoundary(p.boundary) + rest
    ensures Leads(p, false,
                  p.(window := rest, phase := AfterBoundary, log := p.log + [Content(content)]), false, short, accept)
  {
    var d := CrlfDashBoundary(p.boundary);
    DelimiterHasOneCr(p.boundary);
    FindAfterText(content, d, rest);
    assert p.window[..|content|] == content && p.window[|content| + |d|..] == rest;
    assert Round(p, false, accept)
        == Continue(p.(window := rest, phase := AfterBoundary, log := p.log + [Content(content)]), false);
  }

  lemma {:induction false} NextLeads(p: PState, rest: string, short: bool, accept: Receiver)
    requires p.phase == AfterBoundary && p.window == CRLF + rest
    ensures Leads(p, false, p.(window := rest, phase := NewEntry), false, short, accept)
  {
    assert p.window[..|CRLF|] == CRLF && p.window[|CRLF|..] == rest;
    assert p.window[..|DASH|] != DASH by { assert p.window[0] == '\r'; }
    assert Round(p, false, accept) == Continue(p.(window := rest, phase := NewEntry), false);
  }

  lemma {:induction false} CloseLeads(p: PState, short: bool, accept: Receiver)
    requires p.phase == AfterBoundary && p.window == DASH + CRLF
    ensures Leads(p, false, p.(window := "", valid := true), false, short, accept)
  {
    assert p.window[..|DASH|] == DASH;
    assert p.window[..|CRLF|] != CRLF by { assert p.window[0] == '-'; }
    assert Round(p, false, accept) == Continue(p.(window := "", valid := true), false);
  }

  lemma {:induction false} NoCrNoCrlf(s: string)
    requires '\r' !in s
    ensures !Contains(s, CRLF)
  {
    forall i: nat | i <= |s| ensures !OccursAt(s, CRLF, i) {
      if i + |CRLF| <= |s| {
        assert s[i..i + |CRLF|][0] == s[i];
      }
    }
  }

  lemma {:induction false} PrefixNoCrlf(a: string, b: string)
    requires '\r' !in a && !Contains(b, CRLF)
    ensures !Contains(a + b, CRLF)
  {
    forall i: nat | i <= |a + b| ensures !OccursAt(a + b, CRLF, i) {
      if i + |CRLF| <= |a + b| {
        assert (a + b)[i..i + |CRLF|][0] == (a + b)[i];
        if i >= |a| {
          OccursDrop(a + b, CRLF, |a|, i);
          assert (a + b)[|a|..] == b;
        }
      }
    }
  }

  lemma {:induction false} LinesHaveNoCrlf(item: Item)
    requires PlainParam(item.name) && PlainParam(item.filename) && !Contains(item.contentType, CRLF)
    ensures !Contains(DispositionLine(item), CRLF) && !Contains(ContentTypeLine(item), CRLF)
  {
    DispositionValueIsOneLine(item);
    assert DispositionLine(item) == (CONTENT_DISPOSITION + " " + FORM_DATA + " ") + DispositionValue(item);
    NoCrNoCrlf(DispositionLine(item));
    assert ContentTypeLine(item) == (CONTENT_TYPE_NAME + " ") + item.contentType;
    PrefixNoCrlf(CONTENT_TYPE_NAME + " ", item.contentType);
  }

  /** Both header lines stay under the limit. */
  predicate ShortLines(item: Item) {
    |DispositionLine(item)| < HEADER_MAX_LENGTH && |ContentTypeLine(item)| < HEADER_MAX_LENGTH
  }

  /** From a new entry through the fields of a part to its content. */
  lemma {:induction false} FieldsLead(p: PState, item: Item, rest: string, short: bool, accept: Receiver)
    requires Accepts(accept) && p.phase == NewEntry && p.window == Fields(item) + rest
    requires Carriable(item, p.boundary) && |DispositionLine(item)| <= HEADER_MAX_LENGTH
    requires short ==> ShortLines(item)
    ensures Leads(p, false,
                  p.(file := FileOf(item), window := rest, phase := Body, log := p.log + [Header(FileOf(item))]),
                  false, short, accept)
  {
    LinesHaveNoCrlf(item);
    var typed := if item.contentType == "" then "" else ContentTypeLine(item) + CRLF;
    var line, more := DispositionLine(item), typed + (CRLF + rest);
    assert p.window == line + CRLF + more;
    EntryLeads(p, line, more, short, accept);
    DispositionLineReads(item);
    var p1 := p.(file := NO_FILE, phase := Headers);
    var p2 := p1.(file := FileInfo(item.name, item.filename, ""), window := more);
    LineLeads(p1, line, more, p2.file, short, accept);
    LeadsTrans(p, false, p1, true, p2, true, short, accept);
    var p3 := p2.(file := FileOf(item), window := CRLF + rest);
    TypedLeads(p2, item, rest, short, accept);
    LeadsTrans(p, false, p2, true, p3, true, short, accept);
    BlankLeads(p3, rest, short, accept);
    LeadsTrans(p, false, p3, true,
               p.(file := FileOf(item), window := rest, phase := Body, log := p.log + [Header(FileOf(item))]),
               false, short, accept);
  }

  lemma {:induction false} TypedLeads(p: PState, item: Item, rest: string, short: bool, accept: Receiver)
    requires p.phase == Headers && p.file == FileInfo(item.name, item.filename, "")
    requires p.window == (if item.contentType == "" then "" else ContentTypeLine(item) + CRLF) + (CRLF + rest)
    requires Trimmed(item.contentType) && !Contains(ContentTypeLine(item), CRLF)
    requires short ==> ShortLines(item)
    ensures Leads(p, true, p.(file := FileOf(item), window := CRLF + rest), true, short, accept)
  {
    if item.contentType == "" {
      assert p.window == CRLF + rest;
      assert p == p.(file := FileOf(item), window := CRLF + rest);
    } else {
      ContentTypeLineReads(p.file, item);
      LineLeads(p, ContentTypeLine(item), CRLF + rest, FileOf(item), short, accept);
    }
  }

  // -------------------------------------------------------- the whole body

  /** The body behind the opening delimiter line. */
  function BodyRest(items: seq<Item>, boundary: string): string
    requires items != []
  {
    Fields(items[0]) + (items[0].content + CrlfDashBoundary(boundary) +
      if |items| == 1 then DASH + CRLF else CRLF + BodyRest(items[1..], boundary))
  }

  lemma {:induction false} Assoc4(a: string, b: string, c: string, d: string)
    ensures (a + b + c) + d == a + (b + c + d) && (a + b + c) + d == a + (b + (c + d))
  {}

  lemma {:induction false} SerializeCons(items: seq<Item>, boundary: string)
    requires items != []
    ensures Serialize(items, boundary)
         == ItemBegin(items[0], boundary) + items[0].content + (CRLF + Serialize(items[1..], boundary))
  {
    var head := ItemBegin(items[0], boundary) + items[0].content;
    Regroup(head + CRLF, SerializeItems(items[1..], boundary), Finish(boundary));
    Regroup(head, CRLF, Serialize(items[1..], boundary));
  }

  lemma {:induction false} DelimiterJoins(boundary: string, rest: string)
    ensures CRLF + (DashBoundaryCrlf(boundary) + rest) == CrlfDashBoundary(boundary) + (CRLF + rest)
    ensures CRLF + Finish(boundary) == CrlfDashBoundary(boundary) + (DASH + CRLF)
  {}

  lemma {:induction false} SerializeIsRest(items: seq<Item>, boundary: string)
    requires items != []
    ensures Serialize(items, boundary) == DashBoundaryCrlf(boundary) + BodyRest(items, boundary)
  {
    SerializeCons(items, boundary);
    var (f, c, d) := (Fields(items[0]), items[0].content, CrlfDashBoundary(boundary));
    var tail := if |items| == 1 then DASH + CRLF else CRLF + BodyRest(items[1..], boundary);
    if |items| == 1 {
      assert Serialize([], boundary) == Finish(boundary);
      DelimiterJoins(boundary, "");
    } else {
      SerializeIsRest(items[1..], boundary);
      DelimiterJoins(boundary, BodyRest(items[1..], boundary));
    }
    assert CRLF + Serialize(items[1..], boundary) == d + tail;
    Assoc4(DashBoundaryCrlf(boundary), f, c, d + tail);
    Regroup(c, d, tail);
  }

  /** The callbacks of a faithful delivery. */
  function Events(items: seq<Item>): seq<Event> {
    if items == [] then []
    else [Header(FileOf(items[0])), Content(items[0].content)] + Events(items[1..])
  }

  ghost predicate AllCarriable(items: seq<Item>, boundary: string) {
    forall i :: 0 <= i < |items| ==> Carriable(items[i], boundary)
  }

  predicate AllShort(items: seq<Item>) {
    forall i :: 0 <= i < |items| ==> ShortLines(items[i])
  }

  predicate FirstLinesFit(items: seq<Item>) {
    forall i :: 0 <= i < |items| ==> |DispositionLine(items[i])| <= HEADER_MAX_LENGTH
  }

  /** One part: its header callback, then its content callback. */
  lemma {:induction false} PartLeads(p: PState, item: Item, rest: string, short: bool, accept: Receiver)
    requires Accepts(accept) && p.phase == NewEntry && BoundaryCharsValid(p.boundary)
    requires Carriable(item, p.boundary) && |DispositionLine(item)| <= HEADER_MAX_LENGTH
    requires short ==> ShortLines(item)
    requires p.window == Fields(item) + (item.content + CrlfDashBoundary(p.boundary) + rest)
    ensures Leads(p, false,
                  p.(file := FileOf(item), window := rest, phase := AfterBoundary,
                     log := p.log + [Header(FileOf(item)), Content(item.content)]),
                  false, short, accept)
  {
    var body := item.content + CrlfDashBoundary(p.boundary) + rest;
    FieldsLead(p, item, body, short, accept);
    var q := p.(file := FileOf(item), window := body, phase := Body, log := p.log + [Header(FileOf(item))]);
    ContentLeads(q, item.content, rest, short, accept);
    var r := q.(window := rest, phase := AfterBoundary, log := q.log + [Content(item.content)]);
    LeadsTrans(p, false, q, false, r, false, short, accept);
    assert r.log == p.log + [Header(FileOf(item)), Content(item.content)];
  }

  lemma {:induction false} LastPartLeads(p: PState, item: Item, short: bool, accept: Receiver)
    requires Accepts(accept) && p.phase == NewEntry && BoundaryCharsValid(p.boundary)
    requires Carriable(item, p.boundary) && |DispositionLine(item)| <= HEADER_MAX_LENGTH
    requires short ==> ShortLines(item)
    requires p.window == Fields(item) + (item.content + CrlfDashBoundary(p.boundary) + (DASH + CRLF))
    ensures Leads(p, false,
                  p.(file := FileOf(item), window := "", phase := AfterBoundary, valid := true,
                     log := p.log + [Header(FileOf(item)), Content(item.content)]),
                  false, short, accept)
  {
    PartLeads(p, item, DASH + CRLF, short, accept);
    var q := p.(file := FileOf(item), window := DASH + CRLF, phase := AfterBoundary,
                log := p.log + [Header(FileOf(item)), Content(item.content)]);
    CloseLeads(q, short, accept);
    LeadsTrans(p, false, q, false, q.(window := "", valid := true), false, short, accept);
  }

  lemma {:induction false} FirstPartLeads(p: PState, item: Item, more: string, short: bool, accept: Receiver)
    requires Accepts(accept) && p.phase == NewEntry && BoundaryCharsValid(p.boundary)
    requires Carriable(item, p.boundary) && |DispositionLine(item)| <= HEADER_MAX_LENGTH
    requires short ==> ShortLines(item)
    requires p.window == Fields(item) + (item.content + CrlfDashBoundary(p.boundary) + (CRLF + more))
    ensures Leads(p, false,
                  p.(file := FileOf(item), window := more,
                     log := p.log + [Header(FileOf(item)), Content(item.content)]),
                  false, short, accept)
  {
    PartLeads(p, item, CRLF + more, short, accept);
    var q := p.(file := FileOf(item), window := CRLF + more, phase := AfterBoundary,
                log := p.log + [Header(FileOf(item)), Content(item.content)]);
    NextLeads(q, more, short, accept);
    LeadsTrans(p, false, q, false, q.(window := more, phase := NewEntry), false, short, accept);
  }

  /** The parser behind the closing delimiter, all items reported. */
  function Delivered(p: PState, items: seq<Item>): PState
    requires items != []
  {
    p.(file := FileOf(items[|items| - 1]), window := "", phase := AfterBoundary, valid := true,
       log := p.log + Events(items))
  }

  lemma {:induction false} DeliveredOne(p: PState, items: seq<Item>)
    requires |items| == 1
    ensures Delivered(p, items)
         == p.(file := FileOf(items[0]), window := "", phase := AfterBoundary, valid := true,
               log := p.log + [Header(FileOf(items[0])), Content(items[0].content)])
  {
    assert Events(items) == [Header(FileOf(items[0])), Content(items[0].content)];
  }

  lemma {:induction false} DeliveredMore(p: PState, items: seq<Item>, r: PState)
    requires |items| > 1
    requires r == p.(file := r.file, window := r.window,
                     log := p.log + [Header(FileOf(items[0])), Content(items[0].content)])
    ensures Delivered(r, items[1..]) == Delivered(p, items)
  {
    EventsCons(p.log, items);
  }

  lemma {:induction false} PartsLead(p: PState, items: seq<Item>, short: bool, accept: Receiver)
    requires Accepts(accept) && p.phase == NewEntry && BoundaryCharsValid(p.boundary) && items != []
    requires AllCarriable(items, p.boundary) && FirstLinesFit(items) && (short ==> AllShort(items))
    requires p.window == BodyRest(items, p.boundary)
    ensures Leads(p, false, Delivered(p, items), false, short, accept)
    decreases |items|
  {
    if |items| == 1 {
      LastPartLeads(p, items[0], short, accept);
      DeliveredOne(p, items);
    } else {
      var r := p.(file := FileOf(items[0]), window := BodyRest(items[1..], p.boundary),
                  log := p.log + [Header(FileOf(items[0])), Content(items[0].content)]);
      FirstPartLeads(p, items[0], r.window, short, accept);
      PartsLead(r, items[1..], short, accept);
      DeliveredMore(p, items, r);
      LeadsTrans(p, false, r, false, Delivered(p, items), false, short, accept);
    }
  }

  lemma {:induction false} EventsCons(log: seq<Event>, items: seq<Item>)
    requires items != []
    ensures (log + [Header(FileOf(items[0])), Content(items[0].content)]) + Events(items[1..]) == log + Events(items)
  {}

  lemma {:induction false} OpeningLeads(p: PState, rest: string, short: bool, accept: Receiver)
    requires p.phase == OpeningBoundary && p.window == DashBoundaryCrlf(p.boundary) + rest
    ensures Leads(p, false, p.(window := rest, phase := NewEntry), false, short, accept)
  {
    var d := DashBoundaryCrlf(p.boundary);
    assert p.window[0..|d|] == d && p.window[|d|..] == rest;
    FindIs(p.window, d, 0);
    OpeningHit(p, d);
    assert Round(p, false, accept) == Continue(p.(window := rest, phase := NewEntry), false);
  }

  /** A serialized body parses to exactly the serialized parts, in order, and the parser ends valid. */
  lemma {:induction false} ParseOfSerialize(items: seq<Item>, boundary: string, accept: Receiver)
    requires Accepts(accept) && BoundaryCharsValid(boundary) && items != []
    requires AllCarriable(items, boundary) && FirstLinesFit(items)
    ensures var o := Feed(Start(boundary), Serialize(items, boundary), accept);
            o.ok && o.p.valid && o.p.log == Events(items)
    ensures AllShort(items) ==> Regular(Append(Start(boundary), Serialize(items, boundary)), false, accept)
  {
    var short := AllShort(items);
    SerializeIsRest(items, boundary);
    var p := Append(Start(boundary), Serialize(items, boundary));
    var q := p.(window := BodyRest(items, boundary), phase := NewEntry);
    OpeningLeads(p, q.window, short, accept);
    PartsLead(q, items, short, accept);
    LeadsTrans(p, false, q, false, Delivered(q, items), false, short, accept);
    assert [] + Events(items) == Events(items);
  }

  function PartsOf(items: seq<Item>): seq<Part> {
    seq(|items|, i requires 0 <= i < |items| => Part(FileOf(items[i]), items[i].content))
  }

  lemma {:induction false} PartsOfEvents(all: seq<Event>, log: seq<Event>, items: seq<Item>)
    requires all == log + Events(items)
    ensures Parts(all) == Parts(log) + PartsOf(items)
    decreases |items|
  {
    if items == [] {
      assert all == log;
    } else {
      var first := Part(FileOf(items[0]), items[0].content);
      EventsCons(log, items);
      PartsOfEvents(all, log + [Header(first.file), Content(first.content)], items[1..]);
      PartsOfPair(log, first.file, first.content);
      assert PartsOf(items) == [first] + PartsOf(items[1..]);
      Regroup(Parts(log), [first], PartsOf(items[1..]));
    }
  }

  lemma {:induction false} PartsOfPair(log: seq<Event>, file: FileInfo, content: string)
    ensures Parts(log + [Header(file), Content(content)]) == Parts(log) + [Part(file, content)]
  {
    assert log + [Header(file), Content(content)] == log + [Header(file)] + [Content(content)];
    PartsSnoc(log + [Header(file)], Content(content));
    PartsSnoc(log, Header(file));
    var started := Parts(log) + [Part(file, "")];
    assert started[..|started| - 1] == Parts(log) && "" + content == content;
  }

  /** However a serialized body is cut, if its first line arrives whole and its header lines are under the
      limit, the receiver gets exactly the serialized parts. */
  lemma {:induction false} RoundTripInPieces(items: seq<Item>, boundary: string, pieces: seq<string>, accept: Receiver)
    requires Accepts(accept) && BoundaryCharsValid(boundary) && items != []
    requires AllCarriable(items, boundary) && AllShort(items)
    requires pieces != [] && Concat(pieces) == Serialize(items, boundary)
    requires |pieces[0]| >= |DashBoundaryCrlf(boundary)|
    ensures var o := FeedAll(Start(boundary), pieces, accept);
            o.ok && o.p.valid && Parts(o.p.log) == PartsOf(items)
  {
    ParseOfSerialize(items, boundary, accept);
    assert [] + Events(items) == Events(items);
    PartsOfEvents(Events(items), [], items);
    FirstPieceOpens(items, boundary, pieces);
    PieceIndependence(Start(boundary), pieces, accept);
  }

  lemma {:induction false} FirstPieceOpens(items: seq<Item>, boundary: string, pieces: seq<string>)
    requires items != [] && pieces != [] && Concat(pieces) == Serialize(items, boundary)
    requires |pieces[0]| >= |DashBoundaryCrlf(boundary)|
    ensures OpeningArrived(Append(Start(boundary), pieces[0]))
  {
    var d, first := DashBoundaryCrlf(boundary), pieces[0];
    SerializeIsRest(items, boundary);
    var body := first + Concat(pieces[1..]);
    assert body[..|d|] == d;
    assert first[0..|d|] == body[..|d|];
    FindIs(first, d, 0);
    assert "" + first == first;
  }
}
