/** The agent handoff document (frontend/src-tauri/src/agent_handoff.rs): pretty-printed JSON inside a fenced
    block of Markdown, and the extraction of the JSON text from the Markdown. */
module AgentHandoff {
  import opened Wrappers
  import opened Bytes

  // ------------------------------------------------------------ pretty printer

  datatype Value =
    | Null
    | Bool(b: bool)
    | Number(n: int)
    | Str(s: string)
    | Arr(items: seq<Value>)
    | Obj(members: seq<(string, Value)>)

  function Indent(n: nat): (r: string)
    ensures |r| == 2 * n && forall i :: 0 <= i < |r| ==> r[i] == ' '
  {
    if n == 0 then "" else "  " + Indent(n - 1)
  }

  function Digit(d: nat): char
    requires d < 10
  {
    '0' + d as char
  }

  function Digits(n: nat): (r: string)
    ensures r != "" && forall i :: 0 <= i < |r| ==> '0' <= r[i] <= '9'
  {
    (if n < 10 then "" else Digits(n / 10)) + [Digit(n % 10)]
  }

  function Decimal(n: int): string {
    if n < 0 then "-" + Digits(-n) else Digits(n)
  }

  function HexDigitOf(d: nat): char
    requires d < 16
  {
    if d < 10 then '0' + d as char else 'a' + (d - 10) as char
  }

  function EscapeChar(c: char): (r: string)
    ensures r != ""
  {
    if c == '"' then "\\\""
    else if c == '\\' then "\\\\"
    else if c == '\n' then "\\n"
    else if c == '\r' then "\\r"
    else if c == '\t' then "\\t"
    else if c as int == 8 then "\\b"
    else if c as int == 12 then "\\f"
    else if c as int < 32 then "\\u00" + [HexDigitOf(c as int / 16), HexDigitOf(c as int % 16)]
    else [c]
  }

  function Escape(s: string): (r: string)
    ensures |r| >= |s|
  {
    if s == "" then "" else EscapeChar(s[0]) + Escape(s[1..])
  }

  function Quoted(s: string): string { "\"" + Escape(s) + "\"" }

  /** `to_string_pretty` of a value at nesting depth `n`. */
  function Pretty(v: Value, n: nat): string {
    match v
    case Null => "null"
    case Bool(b) => if b then "true" else "false"
    case Number(i) => Decimal(i)
    case Str(s) => Quoted(s)
    case Arr(items) => if items == [] then "[]" else "[" + PrettyItems(items, n + 1) + NewLine(n) + "]"
    case Obj(members) => if members == [] then "{}" else "{" + PrettyMembers(members, n + 1) + NewLine(n) + "}"
  }

  function NewLine(n: nat): string { "\n" + Indent(n) }

  function PrettyItems(items: seq<Value>, n: nat): string
    requires items != []
  {
    NewLine(n) + Pretty(items[0], n) + if |items| == 1 then "" else "," + PrettyItems(items[1..], n)
  }

  function PrettyMember(m: (string, Value), n: nat): string {
    Quoted(m.0) + ": " + Pretty(m.1, n)
  }

  function PrettyMembers(members: seq<(string, Value)>, n: nat): string
    requires members != []
  {
    NewLine(n) + PrettyMember(members[0], n) + if |members| == 1 then "" else "," + PrettyMembers(members[1..], n)
  }

  // ------------------------------------------------------------- the documents

  datatype RecordType = Meeting | Interview | Content

  function TypeName(t: RecordType): string {
    match t
    case Meeting => "meeting"
    case Interview => "interview"
    case Content => "content"
  }

  /** A record, with the parts that are only passed on given as values. */
  datatype Record = Record(schemaVersion: nat, id: string, title: string, recordType: RecordType, revision: int,
                           participants: Value, generation: Value, transcript: Value)

  function Session(r: Record): Value {
    Obj([("id", Str(r.id)), ("title", Str(r.title)), ("record_type", Str(TypeName(r.recordType))),
         ("principal_transcript_revision", Number(r.revision))])
  }

  function Snapshot(r: Record): Value {
    Obj([("schema_version", Number(r.schemaVersion)), ("session", Session(r)), ("participants", r.participants),
         ("generation", r.generation), ("transcript", r.transcript)])
  }

  function SerializeJson(r: Record): string { Pretty(Snapshot(r), 0) }

  const TITLE := "# Agent Handoff: "
  const FENCE := "```agent-handoff+json\n"
  const CLOSING := "\n```"

  /** What follows the title line. */
  function Preamble(r: Record): string {
    "\nType: " + TypeName(r.recordType) + "  \nTranscript revision: " + Decimal(r.revision) + "\n\n"
  }

  function SerializeMarkdown(r: Record): string {
    TITLE + (r.title + "\n") + Preamble(r) + FENCE + (SerializeJson(r) + CLOSING + "\n")
  }

  /** `split_once`. */
  function SplitOnce(s: string, p: string): Option<(string, string)>
    requires p != ""
  {
    var i := Find(s, p);
    if i < |s| then Some((s[..i], s[i + |p|..])) else None
  }

  /** The text `markdown_facts` parses: from behind the first opening fence to the first closing one. */
  function MarkdownFacts(markdown: string): Option<string> {
    match SplitOnce(markdown, FENCE)
    case None => None
    case Some((_, tail)) =>
      match SplitOnce(tail, CLOSING)
      case None => None
      case Some((json, _)) => Some(json)
  }

  // ------------------------------------- line breaks in pretty-printed JSON

  /** Every newline is followed by something that is neither a newline nor a backtick. */
  ghost predicate Tame(s: string) {
    forall i :: 0 <= i < |s| && s[i] == '\n' ==> i + 1 < |s| && s[i + 1] != '\n' && s[i + 1] != '`'
  }

  lemma {:induction false} TameConcat(a: string, b: string)
    requires Tame(a) && Tame(b)
    ensures Tame(a + b)
  {
    forall i | 0 <= i < |a + b| && (a + b)[i] == '\n'
      ensures i + 1 < |a + b| && (a + b)[i + 1] != '\n' && (a + b)[i + 1] != '`'
    {
      if i < |a| { assert a[i] == '\n'; } else { assert b[i - |a|] == '\n'; }
    }
  }

  lemma {:induction false} EscapeIsOneLine(s: string)
    ensures '\n' !in Escape(s)
  {
    if s != "" { EscapeIsOneLine(s[1..]); }
  }

  lemma {:induction false} QuotedIsTame(s: string)
    ensures Tame(Quoted(s)) && '\n' !in Quoted(s)
  {
    EscapeIsOneLine(s);
  }

  lemma {:induction false} BracketIsTame(n: nat, close: string)
    requires close == "]" || close == "}"
    ensures Tame(NewLine(n) + close)
  {
    assert (NewLine(n) + close)[1] == if n == 0 then close[0] else ' ';
  }

  lemma {:induction false} PrettyIsTame(v: Value, n: nat)
    ensures Tame(Pretty(v, n))
    decreases v
  {
    match v {
      case Null =>
      case Bool(_) =>
      case Number(i) =>
      case Str(s) => QuotedIsTame(s);
      case Arr(items) =>
        if items != [] {
          ItemsAreTame(items, n + 1);
          Enclose("[", PrettyItems(items, n + 1), n, "]");
        }
      case Obj(members) =>
        if members != [] {
          MembersAreTame(members, n + 1);
          Enclose("{", PrettyMembers(members, n + 1), n, "}");
        }
    }
  }

  lemma {:induction false} Enclose(open_: string, inner: string, n: nat, close: string)
    requires Tame(inner) && (open_ == "[" || open_ == "{") && (close == "]" || close == "}")
    ensures Tame(open_ + inner + NewLine(n) + close)
  {
    BracketIsTame(n, close);
    TameConcat(open_, inner);
    TameConcat(open_ + inner, NewLine(n) + close);
    Regroup(open_ + inner, NewLine(n), close);
  }

  /** A line of its own, and what may follow after a comma. */
  lemma {:induction false} LineIsTame(n: nat, line: string, rest: string)
    requires n > 0 && Tame(line) && Tame(rest)
    ensures Tame(NewLine(n) + line) && Tame(NewLine(n) + line + ("," + rest))
  {
    assert NewLine(n)[1] == ' ';
    TameConcat(NewLine(n), line);
    TameConcat(",", rest);
    TameConcat(NewLine(n) + line, "," + rest);
  }

  lemma {:induction false} ItemsAreTame(items: seq<Value>, n: nat)
    requires items != [] && n > 0
    ensures Tame(PrettyItems(items, n))
    decreases items
  {
    PrettyIsTame(items[0], n);
    if |items| == 1 {
      LineIsTame(n, Pretty(items[0], n), "");
      assert NewLine(n) + Pretty(items[0], n) + "" == NewLine(n) + Pretty(items[0], n);
    } else {
      ItemsAreTame(items[1..], n);
      LineIsTame(n, Pretty(items[0], n), PrettyItems(items[1..], n));
    }
  }

  lemma {:induction false} MemberIsTame(m: (string, Value), n: nat)
    requires n > 0
    ensures Tame(PrettyMember(m, n))
    decreases m
  {
    PrettyIsTame(m.1, n);
    QuotedIsTame(m.0);
    TameConcat(Quoted(m.0), ": ");
    TameConcat(Quoted(m.0) + ": ", Pretty(m.1, n));
  }

  lemma {:induction false} MembersAreTame(members: seq<(string, Value)>, n: nat)
    requires members != [] && n > 0
    ensures Tame(PrettyMembers(members, n))
    decreases members
  {
    MemberIsTame(members[0], n);
    if |members| == 1 {
      LineIsTame(n, PrettyMember(members[0], n), "");
      assert NewLine(n) + PrettyMember(members[0], n) + "" == NewLine(n) + PrettyMember(members[0], n);
    } else {
      MembersAreTame(members[1..], n);
      LineIsTame(n, PrettyMember(members[0], n), PrettyMembers(members[1..], n));
    }
  }

  // ------------------------------------------------------ length of the JSON

  lemma {:induction false} MemberFits(members: seq<(string, Value)>, n: nat, i: nat)
    requires i < |members|
    ensures |PrettyMembers(members, n)| >= |Pretty(members[i].1, n)|
    decreases i
  {
    if i > 0 { MemberFits(members[1..], n, i - 1); }
  }

  lemma {:induction false} JsonHoldsTitle(r: Record)
    ensures |SerializeJson(r)| > |r.title|
    ensures SerializeJson(r) != "" && SerializeJson(r)[0] == '{'
  {
    var session := Session(r);
    MemberFits(Snapshot(r).members, 1, 1);
    MemberFits(session.members, 2, 1);
    assert Snapshot(r).members[1].1 == session && session.members[1].1 == Str(r.title);
  }

  // --------------------------------------------------------- finding the fence

  lemma {:induction false} FenceShape(i: nat)
    requires i < |FENCE|
    ensures FENCE[0] == '`' && (FENCE[i] == '\n' <==> i == |FENCE| - 1)
  {}

  /** The fence stands only where a backtick is, and reaches over no newline but its own last. */
  lemma {:induction false} FenceAt(s: string, i: nat, k: nat)
    requires OccursAt(s, FENCE, i) && k < |FENCE|
    ensures s[i] == '`' && (s[i + k] == '\n' <==> k == |FENCE| - 1)
  {
    assert s[i..i + |FENCE|][0] == s[i] && s[i..i + |FENCE|][k] == s[i + k];
    FenceShape(k);
  }

  /** The text before the fence: a line without backticks so far, the title line, a part without backticks. */
  ghost predicate Head(a: string, line: string, b: string) {
    '`' !in a && '`' !in b && line != "" && line[|line| - 1] == '\n'
  }

  lemma {:induction false} CharAt(a: string, line: string, b: string, tail: string, i: nat)
    requires i < |a + line + b|
    ensures (a + line + b + tail)[i]
            == if i < |a| then a[i] else if i < |a + line| then line[i - |a|] else b[i - |a + line|]
  {}

  /** A fence that begins before the end of `b` lies within the title line. */
  lemma {:induction false} FenceInLine(a: string, line: string, b: string, tail: string, i: nat)
    requires Head(a, line, b) && OccursAt(a + line + b + tail, FENCE, i) && i < |a + line + b|
    ensures |a| <= i && OccursAt(line, FENCE, i - |a|)
  {
    var s := a + line + b + tail;
    FenceAt(s, i, 0);
    CharAt(a, line, b, tail, i);
    var end := |a + line| - 1;
    CharAt(a, line, b, tail, end);
    if end - i < |FENCE| - 1 { FenceAt(s, i, end - i); }
    assert |a| <= i && i + |FENCE| <= |a + line|;
    assert s[i..i + |FENCE|] == line[i - |a|..i - |a| + |FENCE|];
  }

  lemma {:induction false} LineInText(a: string, line: string, b: string, tail: string, i: nat)
    requires OccursAt(line, FENCE, i)
    ensures OccursAt(a + line + b + tail, FENCE, |a| + i)
  {
    var s := a + line + b + tail;
    assert s[|a| + i..|a| + i + |FENCE|] == line[i..i + |FENCE|];
  }

  lemma {:induction false} FoundAtEnd(a: string, line: string, b: string, tail: string)
    requires Head(a, line, b) && !Contains(line, FENCE)
    ensures SplitOnce(a + line + b + FENCE + tail, FENCE) == Some((a + line + b, tail))
  {
    var h := a + line + b;
    var s := h + FENCE + tail;
    assert s == h + (FENCE + tail);
    forall j: nat | j < |h| ensures !OccursAt(s, FENCE, j) {
      if OccursAt(s, FENCE, j) { FenceInLine(a, line, b, FENCE + tail, j); }
    }
    assert s[|h|..|h| + |FENCE|] == FENCE;
    FindIs(s, FENCE, |h|);
    assert s[..|h|] == h && s[|h| + |FENCE|..] == tail;
  }

  /** A fence in the title line is found first; what is behind it starts with the rest of that line. */
  lemma {:induction false} FoundInLine(a: string, line: string, b: string, tail: string) returns (rest: string)
    requires Head(a, line, b) && Contains(line, FENCE)
    ensures rest == "" || rest[|rest| - 1] == '\n'
    ensures |rest| + |FENCE| <= |line|
    ensures SplitOnce(a + line + b + FENCE + tail, FENCE).Some?
    ensures SplitOnce(a + line + b + FENCE + tail, FENCE).value.1 == rest + (b + FENCE + tail)
  {
    var h := a + line + b;
    var s := h + FENCE + tail;
    assert s == h + (FENCE + tail);
    var i: nat :| i <= |line| && OccursAt(line, FENCE, i);
    LineInText(a, line, b, FENCE + tail, i);
    var f := Find(s, FENCE);
    FenceInLine(a, line, b, FENCE + tail, f);
    var j := f - |a|;
    rest := line[j + |FENCE|..];
    RestOfLine(a, line, b, tail, j + |FENCE|);
  }

  lemma {:induction false} RestOfLine(a: string, line: string, b: string, tail: string, k: nat)
    requires k <= |line|
    ensures (a + line + b + FENCE + tail)[|a| + k..] == line[k..] + (b + FENCE + tail)
  {
    assert a + line + b + FENCE + tail == a + line + (b + FENCE + tail);
  }

  // ------------------------------------------------------ finding the closing

  /** In tame JSON the closing fence cannot begin early. */
  lemma {:induction false} ClosingAtEnd(json: string, end: string)
    requires Tame(json)
    ensures SplitOnce(json + CLOSING + end, CLOSING) == Some((json, end))
  {
    var s := json + CLOSING + end;
    forall j: nat | j < |json| ensures !OccursAt(s, CLOSING, j) {
      if j + |CLOSING| <= |s| {
        assert s[j..j + |CLOSING|][0] == json[j] && s[j..j + |CLOSING|][1] == s[j + 1];
      }
    }
    assert s[|json|..|json| + |CLOSING|] == CLOSING;
    FindIs(s, CLOSING, |json|);
    assert s[..|json|] == json && s[|json| + |CLOSING|..] == end;
  }

  /** A text that has a newline first, or two in a row early enough, has no tame JSON of that length in front. */
  lemma {:induction false} NotJson(json: string, rest: string, more: string, text: string)
    requires Tame(json) && |json| > |rest| && json[0] == '{'
    requires rest == "" || rest[|rest| - 1] == '\n'
    requires more != "" && more[0] == '\n' && text == rest + more
    ensures !(json <= text)
  {
    assert text[|rest|] == '\n';
    if rest != "" { assert text[|rest| - 1] == '\n'; }
  }

  lemma {:induction false} DecimalIsPlain(n: int)
    ensures '`' !in Decimal(n)
  {}

  lemma {:induction false} HeadOf(r: Record)
    ensures Head(TITLE, r.title + "\n", Preamble(r)) && Preamble(r)[0] == '\n'
  {
    DecimalIsPlain(r.revision);
  }

  /** The extracted text is the exact JSON if and only if the title line does not itself hold an opening
      fence. */
  lemma {:induction false} HandoffRoundTrip(r: Record)
    ensures MarkdownFacts(SerializeMarkdown(r)) == Some(SerializeJson(r)) <==> !Contains(r.title + "\n", FENCE)
  {
    var line, b, json := r.title + "\n", Preamble(r), SerializeJson(r);
    HeadOf(r);
    PrettyIsTame(Snapshot(r), 0);
    JsonHoldsTitle(r);
    if Contains(line, FENCE) {
      TitleWithFence(r);
    } else {
      FoundAtEnd(TITLE, line, b, json + CLOSING + "\n");
      ClosingAtEnd(json, "\n");
    }
  }

  lemma {:induction false} TitleWithFence(r: Record)
    requires Contains(r.title + "\n", FENCE)
    ensures MarkdownFacts(SerializeMarkdown(r)) != Some(SerializeJson(r))
  {
    var line, b, json := r.title + "\n", Preamble(r), SerializeJson(r);
    HeadOf(r);
    PrettyIsTame(Snapshot(r), 0);
    JsonHoldsTitle(r);
    var tail := json + CLOSING + "\n";
    var rest := FoundInLine(TITLE, line, b, tail);
    var text := rest + (b + FENCE + tail);
    NotJson(json, rest, b + FENCE + tail, text);
  }
}
