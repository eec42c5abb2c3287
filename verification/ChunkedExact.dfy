/** Which texts the chunked reader takes for a body: a grammar, and the proof that the reader accepts exactly its
    texts and gives exactly what they hold. */
module ChunkedExact {
  import opened Wrappers
  import opened Bytes
  import opened TextCodec
  import opened UrlDecoding
  import opened Streams
  import opened Chunked
  import opened ChunkedWriter
  import opened ChunkedRoundTrip

  // ------------------------------------------------------------------ grammar

  /** A chunk: its size line and its data; the data are followed by CRLF. */
  datatype ChunkText = ChunkText(size: string, data: string)

  /** One line with its line feed. */
  predicate IsLine(line: string) {
    line != "" && line[|line| - 1] == '\n' && '\n' !in line[..|line| - 1]
  }

  predicate GoodChunk(c: ChunkText) {
    IsLine(c.size) && c.data != "" && ChunkLength(c.size) == Some(|c.data|)
  }

  predicate GoodTrailerLine(line: string) {
    IsLine(line) && CString(line) != CRLF && |line| <= HEADER_MAX_LENGTH
  }

  function ChunksText(cs: seq<ChunkText>): string {
    if cs == [] then "" else cs[0].size + (cs[0].data + (CRLF + ChunksText(cs[1..])))
  }

  function DataOf(cs: seq<ChunkText>): string {
    if cs == [] then "" else cs[0].data + DataOf(cs[1..])
  }

  /** The fields of the trailer lines, in order. */
  function FieldsOf(lines: seq<string>): seq<Field> {
    if lines == [] then [] else FieldOf(lines[0]) + FieldsOf(lines[1..])
  }

  /** The line without its last two bytes, as `parse_header` reads it. */
  function FieldOf(line: string): seq<Field> {
    if |line| < 2 then []
    else match ParseHeader(line[..|line| - 2]) case None => [] case Some(field) => [field]
  }

  /** Chunks, a size line of zero, trailer lines, an empty line, and what is behind it. */
  ghost predicate IsBody(w: string, cs: seq<ChunkText>, last: string, lines: seq<string>, d: Decoded) {
    && (forall i :: 0 <= i < |cs| ==> GoodChunk(cs[i]))
    && IsLine(last) && ChunkLength(last) == Some(0)
    && (forall i :: 0 <= i < |lines| ==> GoodTrailerLine(lines[i]))
    && w == ChunksText(cs) + (last + (Concat(lines) + (CRLF + d.rest)))
    && d.body == DataOf(cs) && d.trailers == FieldsOf(lines)
  }

  // -------------------------------------------------------------------- lines

  /** The first line of a text, if it is whole, and the rest. */
  lemma {:induction false} LineOf(line: string, rest: string)
    requires IsLine(line)
    ensures FirstLine(line + rest) == line && AfterLine(line + rest) == rest
  {
    var text := line[..|line| - 1];
    assert line == text + "\n";
    FirstLineIs(text, rest);
  }

  lemma {:induction false} WholeLine(w: string)
    requires '\n' in w
    ensures IsLine(FirstLine(w)) && w == FirstLine(w) + AfterLine(w)
  {
    NoneFound(w, '\n');
    BeforeFirst(w, '\n');
    var i := Find(w, "\n");
    assert w[i..i + 1] == "\n" && FirstLine(w) == w[..i + 1];
    assert FirstLine(w)[..i] == w[..i];
  }

  lemma {:induction false} FeedIsLast(line: string)
    requires IsLine(line)
    ensures forall k :: 0 <= k < |line| && line[k] == '\n' ==> k == |line| - 1
  {
    assert line == line[..|line| - 1] + ['\n'];
  }

  /** Only CRLF itself is a line that `strcmp` takes for CRLF. */
  lemma {:induction false} BlankLineIs(line: string)
    requires IsLine(line) && CString(line) == CRLF
    ensures line == CRLF
  {
    assert CString(line)[0] == line[0] && CString(line)[1] == line[1];
    FeedIsLast(line);
  }

  // ------------------------------------------------------------------ trailer

  lemma {:induction false} FieldAdded(so: seq<Field>, line: string)
    ensures WithField(so, line) == so + FieldOf(line)
  {
    assert so + [] == so;
  }

  /** A line in front of trailer lines. */
  lemma {:induction false} PutLine(line: string, more: seq<string>, rest: string, so: seq<Field>)
    requires GoodTrailerLine(line) && forall i :: 0 <= i < |more| ==> GoodTrailerLine(more[i])
    ensures forall i :: 0 <= i < |[line] + more| ==> GoodTrailerLine(([line] + more)[i])
    ensures Concat([line] + more) + rest == line + (Concat(more) + rest)
    ensures so + FieldsOf([line] + more) == WithField(so, line) + FieldsOf(more)
  {
    ConcatCons(line, more);
    assert ([line] + more)[1..] == more;
    Regroup(line, Concat(more), rest);
    FieldAdded(so, line);
    Regroup(so, FieldOf(line), FieldsOf(more));
  }

  lemma {:induction false} TrailerLineIsWhole(w: string, body: string, so: seq<Field>)
    requires w != "" && DecodeTrailer(FirstLine(w), AfterLine(w), body, so).Some?
    ensures IsLine(FirstLine(w)) && w == FirstLine(w) + AfterLine(w)
  {
    TrailerStartsWhole(FirstLine(w), AfterLine(w), body, so);
    LineIsWhole(w);
    WholeLine(w);
  }

  lemma {:induction false} TrailerParses(w: string, line: string, input: string, body: string, so: seq<Field>,
                                         d: Decoded)
    returns (lines: seq<string>)
    requires w != "" && line == FirstLine(w) && input == AfterLine(w) && DecodeTrailer(line, input, body, so) == Some(d)
    ensures forall i :: 0 <= i < |lines| ==> GoodTrailerLine(lines[i])
    ensures w == Concat(lines) + (CRLF + d.rest) && d.body == body && d.trailers == so + FieldsOf(lines)
    decreases |w|
  {
    TrailerLineIsWhole(w, body, so);
    if CString(line) == CRLF {
      BlankLineIs(line);
      lines := [];
      assert so + [] == so && "" + (CRLF + d.rest) == CRLF + d.rest;
    } else {
      TrailerGoesOn(line, input, body, so);
      var more := TrailerParses(input, FirstLine(input), AfterLine(input), body, WithField(so, line), d);
      lines := [line] + more;
      PutLine(line, more, CRLF + d.rest, so);
    }
  }

  lemma {:induction false} TrailerGoesOn(line: string, input: string, body: string, so: seq<Field>)
    requires DecodeTrailer(line, input, body, so).Some? && CString(line) != CRLF
    ensures input != "" && |line| <= HEADER_MAX_LENGTH
    ensures DecodeTrailer(FirstLine(input), AfterLine(input), body, WithField(so, line))
            == DecodeTrailer(line, input, body, so)
  {}

  lemma {:induction false} TrailerBuilds(lines: seq<string>, rest: string, body: string, so: seq<Field>)
    requires forall i :: 0 <= i < |lines| ==> GoodTrailerLine(lines[i])
    ensures var w := Concat(lines) + (CRLF + rest);
            DecodeTrailer(FirstLine(w), AfterLine(w), body, so) == Some(Decoded(body, so + FieldsOf(lines), rest))
  {
    if lines == [] {
      BlankLine(rest);
      assert "" + (CRLF + rest) == CRLF + rest && so + [] == so;
    } else {
      var line := lines[0];
      var tail := Concat(lines[1..]) + (CRLF + rest);
      Regroup(line, Concat(lines[1..]), CRLF + rest);
      LineOf(line, tail);
      assert GoodTrailerLine(line) && tail != "";
      TrailerStep(line, tail, body, so);
      FieldAdded(so, line);
      TrailerBuilds(lines[1..], rest, body, WithField(so, line));
      Regroup(so, FieldOf(line), FieldsOf(lines[1..]));
    }
  }

  // ------------------------------------------------------------------- chunks

  /** The size line at which a body continues is whole. */
  lemma {:induction false} SizeLineIsWhole(w: string, body: string)
    requires w != "" && DecodeAt(w, body).Some?
    ensures IsLine(FirstLine(w)) && w == FirstLine(w) + AfterLine(w)
  {
    NextStartsWhole(FirstLine(w), AfterLine(w), body);
    LineIsWhole(w);
    WholeLine(w);
  }

  /** The data of a chunk and the line end behind them. */
  lemma {:induction false} DataParses(input: string, len: nat)
    requires ChunkFits(input, len)
    ensures input == input[..len] + (CRLF + AfterLine(input[len..]))
  {
    var after := input[len..];
    LineIsWhole(after);
    WholeLine(after);
    BlankLineIs(FirstLine(after));
    assert input == input[..len] + after;
  }

  /** The reader at a chunk: what it takes stands there as data and CRLF. */
  lemma {:induction false} ChunkParses(w: string, body: string, d: Decoded, len: nat, input: string)
    requires w != "" && DecodeAt(w, body) == Some(d) && ChunkLength(FirstLine(w)) == Some(len) && len > 0
    requires input == AfterLine(w)
    ensures len <= |input| && GoodChunk(ChunkText(FirstLine(w), input[..len]))
    ensures w == FirstLine(w) + (input[..len] + (CRLF + AfterLine(input[len..]))) && AfterLine(input[len..]) != ""
    ensures DecodeAt(AfterLine(input[len..]), body + input[..len]) == Some(d)
  {
    SizeLineIsWhole(w, body);
    ChunkStep(FirstLine(w), input, body, len);
    DataParses(input, len);
  }

  lemma {:induction false} BodyParses(w: string, body: string, d: Decoded)
    returns (cs: seq<ChunkText>, last: string, lines: seq<string>)
    requires w != "" && DecodeAt(w, body) == Some(d)
    ensures IsBody(w, cs, last, lines, d.(body := DataOf(cs))) && d.body == body + DataOf(cs)
    decreases |w|
  {
    var (line, input) := (FirstLine(w), AfterLine(w));
    var len := ChunkLength(line).value;
    if len == 0 {
      cs, last := [], line;
      lines := LastParses(w, line, input, body, d);
    } else {
      ChunkParses(w, body, d, len, input);
      var (c, next) := (ChunkText(line, input[..len]), AfterLine(input[len..]));
      var more;
      more, last, lines := BodyParses(next, body + c.data, d);
      cs := [c] + more;
      OneMoreChunk(c, w, next, more, last, lines, d);
      Regroup(body, c.data, DataOf(more));
    }
  }

  lemma {:induction false} OneMoreChunk(c: ChunkText, w: string, next: string, more: seq<ChunkText>, last: string,
                                        lines: seq<string>, d: Decoded)
    requires GoodChunk(c) && w == c.size + (c.data + (CRLF + next))
    requires IsBody(next, more, last, lines, d.(body := DataOf(more)))
    ensures IsBody(w, [c] + more, last, lines, d.(body := DataOf([c] + more)))
    ensures DataOf([c] + more) == c.data + DataOf(more)
  {
    assert ([c] + more)[1..] == more;
    PutChunk(c, ChunksText(more), last + (Concat(lines) + (CRLF + d.rest)));
  }

  lemma {:induction false} LastParses(w: string, line: string, input: string, body: string, d: Decoded)
    returns (lines: seq<string>)
    requires w != "" && line == FirstLine(w) && input == AfterLine(w)
    requires DecodeAt(w, body) == Some(d) && ChunkLength(line) == Some(0)
    ensures IsBody(w, [], line, lines, d.(body := "")) && d.body == body + ""
  {
    LastChunkStep(line, input, body);
    SizeLineIsWhole(w, body);
    lines := TrailerParses(input, FirstLine(input), AfterLine(input), body, [], d);
    assert [] + FieldsOf(lines) == FieldsOf(lines) && body + "" == body;
    assert "" + (line + (Concat(lines) + (CRLF + d.rest))) == line + (Concat(lines) + (CRLF + d.rest));
  }

  lemma {:induction false} PutChunk(c: ChunkText, text: string, rest: string)
    ensures c.size + (c.data + (CRLF + (text + rest))) == (c.size + (c.data + (CRLF + text))) + rest
  {}

  lemma {:induction false} ChunkBuilds(c: ChunkText, w: string, body: string)
    requires GoodChunk(c) && w != ""
    ensures DecodeAt(c.size + (c.data + (CRLF + w)), body) == DecodeAt(w, body + c.data)
  {
    var input := c.data + (CRLF + w);
    LineOf(c.size, input);
    assert input[..|c.data|] == c.data && input[|c.data|..] == CRLF + w;
    BlankLine(w);
    ChunkStep(c.size, input, body, |c.data|);
  }

  lemma {:induction false} ChunksBuild(cs: seq<ChunkText>, w: string, body: string)
    requires (forall i :: 0 <= i < |cs| ==> GoodChunk(cs[i])) && w != ""
    ensures DecodeAt(ChunksText(cs) + w, body) == DecodeAt(w, body + DataOf(cs))
  {
    if cs == [] {
      assert "" + w == w && body + "" == body;
    } else {
      var more := ChunksText(cs[1..]);
      PutChunk(cs[0], more, w);
      assert GoodChunk(cs[0]) && more + w != "";
      ChunkBuilds(cs[0], more + w, body);
      ChunksBuild(cs[1..], w, body + cs[0].data);
      Regroup(body, cs[0].data, DataOf(cs[1..]));
    }
  }

  lemma {:induction false} BodyBuilds(w: string, cs: seq<ChunkText>, last: string, lines: seq<string>, d: Decoded)
    requires IsBody(w, cs, last, lines, d)
    ensures DecodeChunked(w) == Some(d)
  {
    var s := Concat(lines) + (CRLF + d.rest);
    ChunksBuild(cs, last + s, "");
    assert "" + DataOf(cs) == DataOf(cs);
    LineOf(last, s);
    LastChunkStep(last, s, d.body);
    TrailerBuilds(lines, d.rest, d.body, []);
    assert [] + FieldsOf(lines) == FieldsOf(lines);
  }

  // ------------------------------------------------------------------ theorem

  /** The reader accepts exactly the texts that begin with a body of the grammar, and delivers what it holds. */
  lemma {:induction false} DecodesExactly(w: string, d: Decoded)
    ensures DecodeChunked(w) == Some(d) <==> exists cs, last, lines :: IsBody(w, cs, last, lines, d)
  {
    if DecodeChunked(w) == Some(d) {
      var cs, last, lines := BodyParses(w, "", d);
      assert "" + DataOf(cs) == DataOf(cs);
      assert IsBody(w, cs, last, lines, d);
    }
    forall cs, last, lines | IsBody(w, cs, last, lines, d) ensures DecodeChunked(w) == Some(d) {
      BodyBuilds(w, cs, last, lines, d);
    }
  }

  // ------------------------------------------------------------- what is written

  /** The chunks for some writes: the bare size in lower-case hexadecimal, nothing for an empty write. */
  function ChunksFor(ds: seq<string>): seq<ChunkText> {
    if ds == [] then []
    else (if ds[0] == "" then [] else [ChunkText(ToHex(|ds[0]|) + "\r\n", ds[0])]) + ChunksFor(ds[1..])
  }

  function LinesFor(trailer: seq<Field>): seq<string> {
    if trailer == [] then [] else [trailer[0].0 + ": " + trailer[0].1 + "\r\n"] + LinesFor(trailer[1..])
  }

  lemma {:induction false} ChunksTextCons(c: ChunkText, cs: seq<ChunkText>)
    ensures ChunksText([c] + cs) == (c.size + c.data + CRLF) + ChunksText(cs)
  {
    assert ([c] + cs)[1..] == cs;
    Regroup(c.size + c.data, CRLF, ChunksText(cs));
    Regroup(c.size, c.data, CRLF + ChunksText(cs));
  }

  lemma {:induction false} SizeLineIsLine(n: nat)
    ensures IsLine(ToHex(n) + CRLF)
  {
    HexHasNo('\n', n);
    var line := ToHex(n) + CRLF;
    assert line[..|line| - 1] == ToHex(n) + "\r";
  }

  lemma {:induction false} ChunksWritten(ds: seq<string>)
    requires forall i :: 0 <= i < |ds| ==> Sendable(ds[i])
    ensures Emits(Writes(ds)) == ChunksText(ChunksFor(ds)) && DataOf(ChunksFor(ds)) == Concat(ds)
    ensures forall i :: 0 <= i < |ChunksFor(ds)| ==> GoodChunk(ChunksFor(ds)[i])
  {
    if ds == [] {
      assert Writes(ds) == [];
    } else {
      var (d, more) := (ds[0], ChunksFor(ds[1..]));
      ChunksWritten(ds[1..]);
      assert ds == [d] + ds[1..] && Sendable(d);
      EmitsCons(d, ds[1..]);
      if d == "" {
        assert [] + more == more && "" + ChunksText(more) == ChunksText(more);
        assert "" + Concat(ds[1..]) == Concat(ds[1..]);
      } else {
        var c := ChunkText(ToHex(|d|) + CRLF, d);
        SizeReads(|d|);
        SizeLineIsLine(|d|);
        assert GoodChunk(c);
        ChunksTextCons(c, more);
        assert ([c] + more)[1..] == more;
      }
    }
  }

  lemma {:induction false} LinesWritten(trailer: seq<Field>)
    requires forall i :: 0 <= i < |trailer| ==> LineSafe(trailer[i])
    ensures FieldLines(trailer) == Concat(LinesFor(trailer))
    ensures forall i :: 0 <= i < |LinesFor(trailer)| ==> GoodTrailerLine(LinesFor(trailer)[i])
  {
    if trailer != [] {
      var (f, more) := (trailer[0], LinesFor(trailer[1..]));
      LinesWritten(trailer[1..]);
      assert LineSafe(f);
      LineWritten(f);
      ConcatCons(FieldLine(f), more);
    }
  }

  lemma {:induction false} LineWritten(f: Field)
    requires LineSafe(f)
    ensures GoodTrailerLine(FieldLine(f)) && FieldLine(f) == f.0 + ": " + f.1 + "\r\n"
  {
    FieldLineReads(f, "", []);
    WholeLineIs(f.0 + ": " + f.1);
  }

  lemma {:induction false} WholeLineIs(text: string)
    requires '\n' !in text
    ensures IsLine(text + CRLF)
  {
    var line := text + CRLF;
    assert line[..|line| - 1] == text + "\r";
  }

  /** What the writer puts on the wire for writes and done is this body of the grammar and no other: a chunk with a bare
      size for every write that is not empty, the size line of zero, the trailer lines and the empty line. */
  lemma {:induction false} WriterFormat(ds: seq<string>, trailer: seq<Field>, rest: string)
    requires forall i :: 0 <= i < |ds| ==> Sendable(ds[i])
    requires forall i :: 0 <= i < |trailer| ==> LineSafe(trailer[i])
    ensures IsBody(Emits(Writes(ds) + [Done(trailer)]) + rest, ChunksFor(ds), "0\r\n", LinesFor(trailer),
                   Decoded(Concat(ds), FieldsOf(LinesFor(trailer)), rest))
  {
    ChunksWritten(ds);
    LinesWritten(trailer);
    ZeroLine();
    WireText(ds, trailer, rest, ChunksText(ChunksFor(ds)), Concat(LinesFor(trailer)));
  }

  lemma {:induction false} ZeroLine()
    ensures IsLine("0\r\n") && ChunkLength("0\r\n") == Some(0)
  {
    SizeReads(0);
    SizeLineIsLine(0);
    assert ToHex(0) + CRLF == "0\r\n";
  }

  lemma {:induction false} WireText(ds: seq<string>, trailer: seq<Field>, rest: string, chunks: string, lines: string)
    requires chunks == Emits(Writes(ds)) && lines == FieldLines(trailer)
    ensures Emits(Writes(ds) + [Done(trailer)]) + rest == chunks + ("0\r\n" + (lines + (CRLF + rest)))
  {
    EmitsAppend(Writes(ds), [Done(trailer)]);
    EmitsOne(Done(trailer));
    var zero := "0" + CRLF;
    assert zero == "0\r\n";
    assert Terminator(trailer) == zero + (lines + CRLF);
    BodyJoins(chunks, zero, lines, CRLF, rest);
  }

  lemma {:induction false} BodyJoins(a: string, b: string, c: string, d: string, e: string)
    ensures (a + (b + (c + d))) + e == a + (b + (c + (d + e)))
  {}

  // -------------------------------------------------------------- size lines

  /** Sizes are written in lower case. */
  lemma {:induction false} SizeDigits(n: nat)
    ensures n < 16 ==> ToHex(n) == [LOWER[n]]
    ensures n >= 16 ==> ToHex(n) == ToHex(n / 16) + [LOWER[n % 16]]
  {
    HexDigitsExactly(LowerHex(n % 16), n % 16);
    assert LOWER[n % 16] == LowerHex(n % 16);
  }

  predicate AllSpace(s: string) { forall i :: 0 <= i < |s| ==> IsSpace(s[i]) }

  predicate AllHex(s: string) { forall i :: 0 <= i < |s| ==> HexDigit(s[i]).Some? }

  /** A text goes on with something that is no digit, and does not make a lone zero a 0x. */
  predicate EndsNumber(h: string, tail: string) {
    (tail == "" || HexDigit(tail[0]).None?) && (h == "0" ==> tail == "" || (tail[0] != 'x' && tail[0] != 'X'))
  }

  lemma {:induction false} SkipsSpace(blanks: string, rest: string)
    requires AllSpace(blanks) && rest != "" && !IsSpace(rest[0])
    ensures SkipSpaces(blanks + rest) == rest
  {
    if blanks == "" {
      assert "" + rest == rest;
    } else {
      assert (blanks + rest)[1..] == blanks[1..] + rest;
      SkipsSpace(blanks[1..], rest);
    }
  }

  lemma {:induction false} DigitsHaveValue(h: string, tail: string)
    requires h != "" && AllHex(h) && (tail == "" || HexDigit(tail[0]).None?)
    ensures HexRun(h + tail) == |h| && HexValue(h, 0, |h|).Some? && HexValue(h + tail, 0, |h|) == HexValue(h, 0, |h|)
  {
    RunHasValue(h, |h|);
    var n := HexRun(h + tail);
    assert forall i :: 0 <= i < |h| ==> (h + tail)[i] == h[i];
    assert tail != "" ==> (h + tail)[|h|] == tail[0];
    SameValue(h, h + tail, |h|);
  }

  lemma {:induction false} SameValue(h: string, s: string, n: nat)
    requires n <= |h| && h <= s
    ensures HexValue(s, 0, n) == HexValue(h, 0, n)
  {
    if n > 0 { SameValue(h, s, n - 1); }
  }

  /** What is left of a number's text without its sign and 0x. */
  lemma {:induction false} UnsignedIs(sign: string, prefix: string, h: string, tail: string)
    requires sign in {"", "+", "-"} && prefix in {"", "0x", "0X"} && h != "" && AllHex(h) && EndsNumber(h, tail)
    ensures UnsignedPart(sign + (prefix + (h + tail))) == h + tail
  {
    var u := prefix + (h + tail);
    assert (h + tail)[0] == h[0];
    if sign == "" { assert sign + u == u; } else { assert (sign + u)[1..] == u && (sign + u)[0] == sign[0]; }
    if prefix == "" {
      assert u == h + tail;
      assert |u| > 1 ==> u[1] == if |h| > 1 then h[1] else tail[0];
    } else {
      assert u[0] == '0' && u[1] == prefix[1] && u[2] == h[0] && u[2..] == h + tail;
    }
  }

  /** The reading of sizes: blanks, a sign, 0x, digits, and anything that is no digit. Too large a number is the
      largest, and a minus sign counts back from the end of the range. */
  lemma {:induction false} NumberForms(blanks: string, sign: string, prefix: string, h: string, tail: string)
    requires AllSpace(blanks) && sign in {"", "+", "-"} && prefix in {"", "0x", "0X"}
    requires h != "" && AllHex(h) && EndsNumber(h, tail)
    ensures HexValue(h, 0, |h|).Some?
    ensures var v := HexValue(h, 0, |h|).value;
            Strtoul(blanks + (sign + (prefix + (h + tail))))
            == Some(if v > ULONG_MAX then ULONG_MAX else if sign == "-" && v > 0 then ULONG_MAX + 1 - v else v)
  {
    var t := sign + (prefix + (h + tail));
    FirstOfNumber(sign, prefix, h, tail);
    SkipsSpace(blanks, t);
    UnsignedIs(sign, prefix, h, tail);
    DigitsHaveValue(h, tail);
    LeadingIs(h + tail, |h|, sign == "-");
  }

  lemma {:induction false} LeadingIs(d: string, n: nat, negative: bool)
    requires 0 < n == HexRun(d) && HexValue(d, 0, n).Some?
    ensures var v := HexValue(d, 0, n).value;
            LeadingNumber(d, negative)
            == Some(if v > ULONG_MAX then ULONG_MAX else if negative && v > 0 then ULONG_MAX + 1 - v else v)
  {}

  lemma {:induction false} FirstOfNumber(sign: string, prefix: string, h: string, tail: string)
    requires sign in {"", "+", "-"} && prefix in {"", "0x", "0X"} && h != "" && AllHex(h)
    ensures var t := sign + (prefix + (h + tail)); t != "" && !IsSpace(t[0]) && (t[0] == '-' <==> sign == "-")
  {
    var u := prefix + (h + tail);
    assert u[0] == if prefix == "" then h[0] else '0';
    assert (sign + u)[0] == if sign == "" then u[0] else sign[0];
  }

  /** No number: nothing but blanks and a sign before something that is no digit. */
  lemma {:induction false} NoNumber(blanks: string, sign: string, tail: string)
    requires AllSpace(blanks) && sign in {"", "+", "-"}
    requires tail != "" && HexDigit(tail[0]).None? && !IsSpace(tail[0]) && (sign == "" ==> tail[0] !in {'+', '-'})
    ensures Strtoul(blanks + (sign + tail)) == None
  {
    var t := sign + tail;
    assert t[0] == if sign == "" then tail[0] else sign[0];
    SkipsSpace(blanks, t);
    if sign == "" { assert t == tail; } else { assert t[1..] == tail; }
  }
}
