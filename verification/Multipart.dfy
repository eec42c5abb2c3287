/** The incremental multipart/form-data parser of httplib.h (RFC 2046 section 5.1.1, RFC 7578 section 4).

    `Parse` works on a compacting buffer with two cursors. It is proved to run the small-step machine
    `Run`, which sees only the window of unread bytes. */
module Multipart {
  import opened Wrappers
  import opened Bytes
  import opened TextCodec

  const HEADER_MAX_LENGTH: nat := 8192

  datatype FileInfo = FileInfo(name: string, filename: string, contentType: string)

  const NO_FILE := FileInfo("", "", "")

  /** A callback as its receiver sees it. */
  datatype Event = Header(file: FileInfo) | Content(data: string)

  /** The answer of the receiver to the last callback of a history. */
  type Receiver = seq<Event> -> bool

  /** The five values of `state_`. */
  datatype Phase = OpeningBoundary | NewEntry | Headers | Body | AfterBoundary

  datatype PState = PState(boundary: string, phase: Phase, valid: bool, file: FileInfo,
                           window: string, log: seq<Event>)

  function DashBoundaryCrlf(boundary: string): string { DASH + boundary + CRLF }

  function CrlfDashBoundary(boundary: string): string { CRLF + DASH + boundary }

  // ------------------------------------------------------------ header lines

  predicate StartsWithIgnoreCase(a: string, b: string) {
    |a| >= |b| && forall i :: 0 <= i < |b| ==> ToLower(a[i]) == ToLower(b[i])
  }

  /** `start_with_case_ignore`. */
  method StartWithCaseIgnore(a: string, b: string) returns (r: bool)
    ensures r == StartsWithIgnoreCase(a, b)
  {
    if |a| < |b| { return false; }
    for i := 0 to |b|
      invariant forall k :: 0 <= k < i ==> ToLower(a[k]) == ToLower(b[k])
    {
      if ToLower(a[i]) != ToLower(b[i]) { return false; }
    }
    return true;
  }

  /** No line terminator, hence matched whole by `.*`. */
  predicate IsOneLine(s: string) {
    forall i :: 0 <= i < |s| ==> s[i] != '\r' && s[i] != '\n'
  }

  const CONTENT_TYPE := "content-type:"
  const CONTENT_DISPOSITION := "Content-Disposition:"
  const FORM_DATA := "form-data;"
  const UTF8_PREFIX := "UTF-8''"

  /** The capture of `^Content-Disposition:\s*form-data;\s*(.*)$`, letter case ignored. The second `\s*` is
      greedy and giving blanks back to `.*` never helps, so the capture is what follows all the spaces. */
  function DispositionParams(header: string): Option<string> {
    if !StartsWithIgnoreCase(header, CONTENT_DISPOSITION) then None
    else
      var rest := SkipSpaces(header[|CONTENT_DISPOSITION|..]);
      if !StartsWithIgnoreCase(rest, FORM_DATA) then None
      else
        var params := SkipSpaces(rest[|FORM_DATA|..]);
        if IsOneLine(params) then Some(params) else None
  }

  /** The capture of `^UTF-8''(.+?)$`, letter case ignored. */
  function ExtendedValue(v: string): Option<string> {
    if StartsWithIgnoreCase(v, UTF8_PREFIX) && |v| > |UTF8_PREFIX| && IsOneLine(v[|UTF8_PREFIX|..])
    then Some(v[|UTF8_PREFIX|..])
    else None
  }

  /** The pairs of the `Params` multimap, in the order of insertion. */
  function Params(m1: string): seq<(string, string)> {
    var pairs := ParsedPairs(m1, ';');
    seq(|pairs|, i requires 0 <= i < |pairs| => (TrimQuotes(pairs[i].0), TrimQuotes(pairs[i].1)))
  }

  /** `find` on the multimap: the earliest value inserted for the key. */
  function Lookup(params: seq<(string, string)>, key: string): (r: Option<string>)
    ensures r.Some? ==> exists i :: 0 <= i < |params| && params[i] == (key, r.value)
    ensures r.None? ==> forall i :: 0 <= i < |params| ==> params[i].0 != key
  {
    if params == [] then None
    else if params[0].0 == key then Some(params[0].1)
    else Lookup(params[1..], key)
  }

  /** What one header line does to the pending file, and whether the parser accepts the line. */
  function HeaderLine(file: FileInfo, header: string): (FileInfo, bool) {
    if StartsWithIgnoreCase(header, CONTENT_TYPE) then
      (file.(contentType := Trim(header[|CONTENT_TYPE|..])), true)
    else
      match DispositionParams(header)
      case None => (file, false)
      case Some(m1) => ApplyParams(file, Params(m1))
  }

  function ApplyParams(file: FileInfo, params: seq<(string, string)>): (FileInfo, bool) {
    match Lookup(params, "name")
    case None => (file, false)
    case Some(name) =>
      var named := file.(name := name);
      var plain := match Lookup(params, "filename") { case None => named case Some(f) => named.(filename := f) };
      match Lookup(params, "filename*")
      case None => (plain, true)
      case Some(v) =>
        match ExtendedValue(v)
        case None => (plain, false)
        case Some(e) => (plain.(filename := Decode(e, false)), true)
  }

  /** The treatment of one header line inside `parse`. */
  method ReadHeaderLine(file: FileInfo, header: string) returns (r: FileInfo, ok: bool)
    ensures (r, ok) == HeaderLine(file, header)
  {
    r := file;
    var isContentType := StartWithCaseIgnore(header, CONTENT_TYPE);
    if isContentType {
      r := r.(contentType := Trim(header[|CONTENT_TYPE|..]));
      return r, true;
    }
    var m1 := DispositionParams(header);
    if m1.None? { return r, false; }
    var params := ParseDispositionParams(m1.value);
    var it := Lookup(params, "name");
    if it.None? { return r, false; }
    r := r.(name := it.value);
    it := Lookup(params, "filename");
    if it.Some? { r := r.(filename := it.value); }
    it := Lookup(params, "filename*");
    if it.Some? {
      var m2 := ExtendedValue(it.value);
      if m2.None? { return r, false; }
      var decoded := DecodeUrl(m2.value, false);
      r := r.(filename := decoded);
    }
    return r, true;
  }

  /** `parse_disposition_params`. */
  method ParseDispositionParams(m1: string) returns (params: seq<(string, string)>)
    ensures params == Params(m1)
  {
    var pairs := ParsePairsLoop(m1, ';');
    params := [];
    for i := 0 to |pairs|
      invariant params == Params(m1)[..i]
    {
      params := params + [(TrimQuotes(pairs[i].0), TrimQuotes(pairs[i].1))];
    }
  }

  // --------------------------------------------------------- small-step form

  /** One round of the parser: it returns, or goes on. `inLines` is set inside the header-line loop, whose
      rounds skip the length check made on entering the phase. */
  datatype Step = Return(p: PState, ok: bool) | Continue(p: PState, inLines: bool)

  function Round(p: PState, inLines: bool, accept: Receiver): (r: Step)
    requires p.window != ""
    ensures r.Continue? ==>
              |r.p.window| < |p.window| || (|r.p.window| == |p.window| && Rank(r.p, r.inLines) < Rank(p, inLines))
  {
    match p.phase
    case OpeningBoundary => RoundOpening(p)
    case NewEntry => Continue(p.(file := NO_FILE, phase := Headers), false)
    case Headers => if inLines then RoundHeaderLine(p, accept) else RoundHeaders(p)
    case Body => RoundBody(p, accept)
    case AfterBoundary => RoundAfterBoundary(p)
  }

  function Rank(p: PState, inLines: bool): nat {
    if p.phase == NewEntry then 2 else if p.phase == Headers && !inLines then 1 else 0
  }

  function RoundOpening(p: PState): (r: Step)
    ensures r.Continue? ==> |r.p.window| < |p.window|
  {
    RoundOpeningAt(p, DashBoundaryCrlf(p.boundary))
  }

  function RoundOpeningAt(p: PState, d: string): (r: Step)
    requires d != ""
    ensures r.Continue? ==> |r.p.window| < |p.window|
  {
    var w := p.window[Find(p.window, d)..];
    if |d| > |w| then Return(p.(window := w), true)
    else if !StartsWith(w, d) then Return(p.(window := w), false)
    else Continue(p.(window := w[|d|..], phase := NewEntry), false)
  }

  function RoundHeaders(p: PState): Step {
    if Find(p.window, CRLF) > HEADER_MAX_LENGTH then Return(p, false) else Continue(p, true)
  }

  function RoundHeaderLine(p: PState, accept: Receiver): (r: Step)
    ensures r.Continue? ==> |r.p.window| < |p.window|
  {
    RoundParsedLine(p, HeaderLine(p.file, p.window[..Find(p.window, CRLF)]), accept)
  }

  /** The round of the header-line loop, given what the first line says when it is a field line. */
  function RoundParsedLine(p: PState, parsed: (FileInfo, bool), accept: Receiver): (r: Step)
    ensures r.Continue? ==> |r.p.window| < |p.window|
  {
    var pos := Find(p.window, CRLF);
    if pos == |p.window| then Return(p, true)
    else if pos == 0 then
      var log := p.log + [Header(p.file)];
      if !accept(log) then Return(p.(valid := false, log := log), false)
      else Continue(p.(window := p.window[|CRLF|..], phase := Body, log := log), false)
    else if parsed.1 then Continue(p.(file := parsed.0, window := p.window[pos + |CRLF|..]), true)
    else Return(p.(file := parsed.0, valid := false), false)
  }

  function RoundBody(p: PState, accept: Receiver): (r: Step)
    ensures r.Continue? ==> |r.p.window| < |p.window|
  {
    RoundBodyUpTo(p, CrlfDashBoundary(p.boundary), accept)
  }

  function RoundBodyUpTo(p: PState, d: string, accept: Receiver): (r: Step)
    requires d != ""
    ensures r.Continue? ==> |r.p.window| < |p.window|
  {
    if |d| > |p.window| then Return(p, true)
    else
      var pos := Find(p.window, d);
      if pos < |p.window| then
        var log := p.log + [Content(p.window[..pos])];
        if !accept(log) then Return(p.(valid := false, log := log), false)
        else Continue(p.(window := p.window[pos + |d|..], phase := AfterBoundary, log := log), false)
      else
        var len := |p.window| - |d|;
        if len == 0 then Return(p, true)
        else
          var log := p.log + [Content(p.window[..len])];
          if !accept(log) then Return(p.(valid := false, log := log), false)
          else Return(p.(window := p.window[len..], log := log), true)
  }

  function RoundAfterBoundary(p: PState): (r: Step)
    ensures r.Continue? ==> |r.p.window| < |p.window|
  {
    if |CRLF| > |p.window| then Return(p, true)
    else if StartsWith(p.window, CRLF) then Continue(p.(window := p.window[|CRLF|..], phase := NewEntry), false)
    else if |DASH| > |p.window| then Return(p, true)
    else if StartsWith(p.window, DASH) then Continue(p.(window := "", valid := true), false)
    else Return(p, true)
  }

  datatype Outcome = Outcome(p: PState, ok: bool)

  /** The rounds from `p` until the parser returns. */
  function Run(p: PState, inLines: bool, accept: Receiver): Outcome
    decreases |p.window|, Rank(p, inLines)
  {
    if p.window == "" then Outcome(p, true)
    else
      match Round(p, inLines, accept)
      case Return(q, ok) => Outcome(q, ok)
      case Continue(q, lines) => Run(q, lines, accept)
  }

  /** One call of `parse` with the bytes `data`. */
  function Feed(p: PState, data: string, accept: Receiver): Outcome {
    Run(p.(window := p.window + data), false, accept)
  }

  function Start(boundary: string): PState {
    PState(boundary, OpeningBoundary, false, NO_FILE, "", [])
  }

  /** Successive calls of `parse`; the caller stops at the first `false`. */
  function FeedAll(p: PState, pieces: seq<string>, accept: Receiver): Outcome
    decreases |pieces|
  {
    if pieces == [] then Outcome(p, true)
    else
      var first := Feed(p, pieces[0], accept);
      if first.ok then FeedAll(first.p, pieces[1..], accept) else first
  }

  // -------------------------------------------------------------- the parser

  class MultipartFormDataParser {
    const boundary: string
    const dashBoundaryCrlf: string
    const crlfDashBoundary: string

    var phase: Phase
    var isValid: bool
    var file: FileInfo

    // the buffer: only buf[spos..epos] is live
    var buf: string
    var spos: nat
    var epos: nat

    // the callbacks made so far
    var log: seq<Event>

    ghost predicate Valid()
      reads this
    {
      && spos <= epos <= |buf|
      && dashBoundaryCrlf == DashBoundaryCrlf(boundary)
      && crlfDashBoundary == CrlfDashBoundary(boundary)
    }

    ghost function State(): PState
      reads this
      requires Valid()
    {
      PState(boundary, phase, isValid, file, buf[spos..epos], log)
    }

    /** The default constructor followed by `set_boundary`. */
    constructor (boundary: string)
      ensures Valid() && State() == Start(boundary)
    {
      this.boundary := boundary;
      dashBoundaryCrlf := DashBoundaryCrlf(boundary);
      crlfDashBoundary := CrlfDashBoundary(boundary);
      phase, isValid, file := OpeningBoundary, false, NO_FILE;
      buf, spos, epos := "", 0, 0;
      log := [];
    }

    function BufSize(): nat
      reads this
      requires Valid()
    {
      epos - spos
    }

    /** `start_with` on the buffer: `s` stands at position `pos` of the buffer. */
    method StartWithAt(pos: nat, s: string) returns (r: bool)
      requires Valid() && spos <= pos <= epos
      ensures r == OccursAt(buf[spos..epos], s, pos - spos)
    {
      if epos - pos < |s| { return false; }
      ghost var w := buf[spos..epos];
      ghost var here := w[pos - spos..pos - spos + |s|];
      for i := 0 to |s|
        invariant here[..i] == s[..i]
      {
        assert buf[i + pos] == here[i];
        if buf[i + pos] != s[i] { return false; }
        assert here[..i + 1] == here[..i] + [here[i]];
      }
      assert here[..|s|] == here && s[..|s|] == s;
      return true;
    }

    /** `buf_head`. */
    method BufHead(l: nat) returns (r: string)
      requires Valid() && l <= BufSize()
      ensures r == buf[spos..epos][..l]
    {
      r := buf[spos..spos + l];
      SliceOfSlice(buf, spos, epos, 0, l);
    }

    /** `buf_start_with`. */
    method BufStartWith(s: string) returns (r: bool)
      requires Valid()
      ensures r == StartsWith(buf[spos..epos], s)
    {
      r := StartWithAt(spos, s);
      OccursAtZero(buf[spos..epos], s);
    }

    /** `buf_find`: scan for the first character, then compare; two nested loops. */
    method BufFind(s: string) returns (r: nat)
      requires Valid() && s != ""
      ensures r == Find(buf[spos..epos], s)
    {
      ghost var w := buf[spos..epos];
      var c := s[0];
      var off := spos;
      while off < epos
        invariant spos <= off <= epos
        invariant forall j: nat :: j < off - spos ==> !OccursAt(w, s, j)
      {
        var pos := off;
        while pos < epos && buf[pos] != c
          invariant off <= pos <= epos
          invariant forall j: nat :: j < pos - spos ==> !OccursAt(w, s, j)
        {
          assert w[pos - spos] != s[0];
          NotHere(w, s, pos - spos);
          pos := pos + 1;
        }
        if pos == epos || |s| > epos - pos {
          TooShort(w, s, pos - spos);
          FindIs(w, s, |w|);
          return BufSize();
        }
        var here := StartWithAt(pos, s);
        if here {
          FindIs(w, s, pos - spos);
          return pos - spos;
        }
        off := pos + 1;
      }
      FindIs(w, s, |w|);
      return BufSize();
    }

    /** `buf_append`: move the live bytes to the front, then store the new ones behind them. */
    method BufAppend(data: string)
      requires Valid()
      modifies `buf, `spos, `epos
      ensures Valid() && buf[spos..epos] == old(buf[spos..epos]) + data
    {
      BufCompact();
      ghost var w := buf[spos..epos];
      if epos + |data| > |buf| {
        buf := buf + seq(epos + |data| - |buf|, _ => '\0');
      }
      assert buf[..epos] == w;
      for i := 0 to |data|
        invariant |buf| >= epos + |data| && spos == 0 && epos == |w|
        invariant buf[..epos + i] == w + data[..i]
      {
        buf := buf[epos + i := data[i]];
      }
      epos := epos + |data|;
      assert data[..|data|] == data;
    }

    /** The first part of it: the live window moves to the front. */
    method BufCompact()
      requires Valid()
      modifies `buf, `spos, `epos
      ensures Valid() && spos == 0 && buf[..epos] == old(buf[spos..epos])
    {
      ghost var w := buf[spos..epos];
      var remaining := epos - spos;
      if remaining > 0 && spos > 0 {
        for i := 0 to remaining
          invariant |buf| == |old(buf)| && spos == old(spos) && epos == old(epos)
          invariant buf[..i] == w[..i]
          invariant buf[spos + i..epos] == w[i..]
        {
          assert buf[spos + i] == buf[spos + i..epos][0];
          buf := buf[i := buf[spos + i]];
        }
        assert buf[..remaining] == w;
      }
      spos := 0;
      epos := remaining;
    }

    method BufErase(size: nat)
      requires Valid() && size <= BufSize()
      modifies `spos
      ensures Valid() && buf[spos..epos] == old(buf[spos..epos])[size..]
    {
      spos := spos + size;
    }

    /** Case 0 of `parse`. */
    method OpeningCase() returns (stop: bool, ok: bool)
      requires Valid() && phase == OpeningBoundary && BufSize() > 0
      modifies this
      ensures Valid()
      ensures RoundOpening(old(State())) == if stop then Return(State(), ok) else Continue(State(), false)
    {
      var pos := BufFind(dashBoundaryCrlf);
      BufErase(pos);
      if |dashBoundaryCrlf| > BufSize() { return true, true; }
      var here := BufStartWith(dashBoundaryCrlf);
      if !here { return true, false; }
      BufErase(|dashBoundaryCrlf|);
      phase := NewEntry;
      return false, true;
    }

    /** A callback; its refusal makes the body invalid. */
    method Report(e: Event, accept: Receiver) returns (taken: bool)
      modifies `log, `isValid
      ensures log == old(log) + [e] && taken == accept(log)
      ensures isValid == (taken && old(isValid))
    {
      log := log + [e];
      taken := accept(log);
      if !taken { isValid := false; }
    }

    /** The empty line that ends the headers. */
    method EmptyLineRound(accept: Receiver) returns (ok: bool)
      requires Valid() && phase == Headers
      requires Find(State().window, CRLF) == 0 < BufSize()
      modifies this
      ensures Valid() && (ok ==> phase == Body)
      ensures RoundHeaderLine(old(State()), accept)
           == if ok then Continue(State(), false) else Return(State(), false)
    {
      var taken := Report(Header(file), accept);
      if !taken { return false; }
      BufErase(|CRLF|);
      phase := Body;
      return true;
    }

    /** A header line of `pos` bytes. */
    method FieldLineRound(pos: nat, ghost accept: Receiver) returns (ok: bool)
      requires Valid() && phase == Headers
      requires pos == Find(State().window, CRLF) && 0 < pos < BufSize()
      modifies this
      ensures Valid() && phase == Headers
      ensures RoundHeaderLine(old(State()), accept)
           == if ok then Continue(State(), true) else Return(State(), false)
    {
      var header := BufHead(pos);
      file, ok := ReadHeaderLine(file, header);
      if ok {
        BufErase(pos + |CRLF|);
      } else {
        isValid := false;
      }
    }

    /** Case 2 of `parse`, with its inner loop over the header lines. */
    method HeadersCase(accept: Receiver) returns (stop: bool, ok: bool)
      requires Valid() && phase == Headers && BufSize() > 0
      modifies this
      ensures Valid() && (stop || BufSize() < old(BufSize()))
      ensures Run(old(State()), false, accept)
           == if stop then Outcome(State(), ok) else Run(State(), false, accept)
    {
      ghost var goal := Run(State(), false, accept);
      var pos := BufFind(CRLF);
      if pos > HEADER_MAX_LENGTH { return true, false; }
      while pos < BufSize()
        invariant Valid() && phase == Headers && BufSize() <= old(BufSize())
        invariant pos == Find(State().window, CRLF)
        invariant Run(State(), true, accept) == goal
        decreases BufSize()
      {
        if pos == 0 {
          ok := EmptyLineRound(accept);
          return !ok, ok;
        }
        ok := FieldLineRound(pos, accept);
        if !ok { return true, false; }
        pos := BufFind(CRLF);
      }
      return true, true;
    }

    /** Case 3 of `parse`. */
    method BodyCase(accept: Receiver) returns (stop: bool, ok: bool)
      requires Valid() && phase == Body && BufSize() > 0
      modifies this
      ensures Valid()
      ensures RoundBody(old(State()), accept) == if stop then Return(State(), ok) else Continue(State(), false)
    {
      if |crlfDashBoundary| > BufSize() { return true, true; }
      var pos := BufFind(crlfDashBoundary);
      if pos < BufSize() {
        var content := BufHead(pos);
        var taken := Report(Content(content), accept);
        if !taken { return true, false; }
        BufErase(pos + |crlfDashBoundary|);
        phase := AfterBoundary;
        return false, true;
      }
      var len := BufSize() - |crlfDashBoundary|;
      if len > 0 {
        var content := BufHead(len);
        var taken := Report(Content(content), accept);
        if !taken { return true, false; }
        BufErase(len);
      }
      return true, true;
    }

    /** Case 4 of `parse`. */
    method AfterBoundaryCase() returns (stop: bool, ok: bool)
      requires Valid() && phase == AfterBoundary && BufSize() > 0
      modifies this
      ensures Valid()
      ensures RoundAfterBoundary(old(State())) == if stop then Return(State(), ok) else Continue(State(), false)
    {
      if |CRLF| > BufSize() { return true, true; }
      var atCrlf := BufStartWith(CRLF);
      if atCrlf {
        BufErase(|CRLF|);
        phase := NewEntry;
        return false, true;
      }
      if |DASH| > BufSize() { return true, true; }
      var atDash := BufStartWith(DASH);
      if !atDash { return true, true; }
      BufErase(|DASH|);
      isValid := true;
      BufErase(BufSize());
      return false, true;
    }

    /** `parse`: consumes the buffer phase by phase until it needs more bytes, fails or has finished. */
    method Parse(data: string, accept: Receiver) returns (ok: bool)
      requires Valid()
      modifies this
      ensures Valid()
      ensures Outcome(State(), ok) == Feed(old(State()), data, accept)
    {
      BufAppend(data);
      ghost var goal := Run(State(), false, accept);
      while BufSize() > 0
        invariant Valid() && Run(State(), false, accept) == goal
        decreases BufSize(), Rank(State(), false)
      {
        var stop := false;
        match phase {
          case OpeningBoundary => stop, ok := OpeningCase();
          case NewEntry => file, phase := NO_FILE, Headers;
          case Headers => stop, ok := HeadersCase(accept);
          case Body => stop, ok := BodyCase(accept);
          case AfterBoundary => stop, ok := AfterBoundaryCase();
        }
        if stop { return ok; }
      }
      return true;
    }
  }

  lemma {:induction false} NotHere(w: string, s: string, i: nat)
    requires s != "" && i < |w| && w[i] != s[0]
    ensures !OccursAt(w, s, i)
  {
    if i + |s| <= |w| {
      assert w[i..i + |s|][0] == w[i];
    }
  }

  lemma {:induction false} TooShort(w: string, s: string, from: nat)
    requires from <= |w| && |s| > |w| - from
    requires forall j: nat :: j < from ==> !OccursAt(w, s, j)
    ensures forall j: nat :: j < |w| ==> !OccursAt(w, s, j)
  {}
}
