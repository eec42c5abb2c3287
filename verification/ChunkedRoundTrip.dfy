/** Chunked transfer coding: a decoded body delimits itself, and the reader undoes the writer. */
module ChunkedRoundTrip {
  import opened Wrappers
  import opened Bytes
  import opened TextCodec
  import opened UrlDecoding
  import opened Streams
  import opened Chunked
  import opened ChunkedWriter

  // ---------------------------------------------------- self-delimiting bodies

  lemma {:induction false} LineAppend(s: string, more: string)
    requires '\n' in s
    ensures FirstLine(s + more) == FirstLine(s) && AfterLine(s + more) == AfterLine(s) + more
  {
    NoneFound(s, '\n');
    FindAppendHit(s, more, "\n");
  }

  /** A line with something behind it, and the line CRLF, have their newline. */
  lemma {:induction false} LineIsWhole(s: string)
    requires AfterLine(s) != "" || CString(FirstLine(s)) == CRLF
    ensures '\n' in s
  {
    NoneFound(s, '\n');
    if AfterLine(s) == "" {
      assert FirstLine(s) == s;
      assert CString(s)[1] == s[1];
    }
  }

  function Extended(d: Option<Decoded>, more: string): Option<Decoded> {
    match d
    case None => None
    case Some(x) => Some(x.(rest := x.rest + more))
  }

  lemma {:induction false} TrailerExtends(line: string, input: string, body: string, trailers: seq<Field>, more: string)
    requires DecodeTrailer(line, input, body, trailers).Some?
    ensures DecodeTrailer(line, input + more, body, trailers)
            == Extended(DecodeTrailer(line, input, body, trailers), more)
    decreases |input|
  {
    if CString(line) != CRLF {
      TrailerStep(line, input, body, trailers);
      TrailerStep(line, input + more, body, trailers);
      TrailerStartsWhole(FirstLine(input), AfterLine(input), body, WithField(trailers, line));
      LineIsWhole(input);
      LineAppend(input, more);
      TrailerExtends(FirstLine(input), AfterLine(input), body, WithField(trailers, line), more);
    }
  }

  lemma {:induction false} TrailerStartsWhole(line: string, input: string, body: string, trailers: seq<Field>)
    requires DecodeTrailer(line, input, body, trailers).Some?
    ensures input != "" || CString(line) == CRLF
  {}

  /** What `DecodeFrom` does at a chunk that is not the last one. */
  lemma {:induction false} ChunkStep(line: string, input: string, body: string, len: nat)
    requires ChunkLength(line) == Some(len) && len > 0
    ensures !ChunkFits(input, len) ==> DecodeFrom(line, input, body) == None
    ensures ChunkFits(input, len) ==>
              DecodeFrom(line, input, body)
              == DecodeFrom(FirstLine(AfterLine(input[len..])), AfterLine(AfterLine(input[len..])), body + input[..len])
  {}

  lemma {:induction false} LastChunkStep(line: string, input: string, body: string)
    requires ChunkLength(line) == Some(0)
    ensures input == "" ==> DecodeFrom(line, input, body) == None
    ensures input != "" ==> DecodeFrom(line, input, body) == DecodeTrailer(FirstLine(input), AfterLine(input), body, [])
  {}

  lemma {:induction false} BodyExtends(line: string, input: string, body: string, more: string)
    requires DecodeFrom(line, input, body).Some?
    ensures DecodeFrom(line, input + more, body) == Extended(DecodeFrom(line, input, body), more)
    decreases |input|
  {
    var len := ChunkLength(line).value;
    if len == 0 {
      LastChunkStep(line, input, body);
      LastChunkStep(line, input + more, body);
      TrailerStartsWhole(FirstLine(input), AfterLine(input), body, []);
      LineIsWhole(input);
      LineAppend(input, more);
      TrailerExtends(FirstLine(input), AfterLine(input), body, [], more);
    } else {
      ChunkStep(line, input, body, len);
      ChunkStep(line, input + more, body, len);
      DataAppend(input, more, len);
      var after := input[len..];
      LineIsWhole(after);
      LineAppend(after, more);
      var next := AfterLine(after);
      NextStartsWhole(FirstLine(next), AfterLine(next), body + input[..len]);
      LineIsWhole(next);
      LineAppend(next, more);
      BodyExtends(FirstLine(next), AfterLine(next), body + input[..len], more);
    }
  }

  lemma {:induction false} DataAppend(input: string, more: string, len: nat)
    requires len <= |input|
    ensures (input + more)[..len] == input[..len] && (input + more)[len..] == input[len..] + more
  {}

  lemma {:induction false} NextStartsWhole(line: string, input: string, body: string)
    requires DecodeFrom(line, input, body).Some?
    ensures input != ""
  {}

  /** Bytes behind a complete body do not change what is decoded, and all of them are left. */
  lemma {:induction false} SelfDelimiting(input: string, more: string)
    requires DecodeChunked(input).Some?
    ensures DecodeChunked(input + more) == Extended(DecodeChunked(input), more)
  {
    NextStartsWhole(FirstLine(input), AfterLine(input), "");
    LineIsWhole(input);
    LineAppend(input, more);
    BodyExtends(FirstLine(input), AfterLine(input), "", more);
  }

  lemma {:induction false} AcceptedPrefix(a: string, b: string)
    requires DecodeChunked(a).Some?
    ensures DecodeChunked(a + b).Some? && |DecodeChunked(a + b).value.rest| >= |b|
  {
    SelfDelimiting(a, b);
  }

  /** A body cut short anywhere is never accepted. */
  lemma {:induction false} TruncationIsDetected(cut: string, lost: string)
    requires DecodeChunked(cut + lost).Some? && |DecodeChunked(cut + lost).value.rest| < |lost|
    ensures DecodeChunked(cut) == None
  {
    if DecodeChunked(cut).Some? { AcceptedPrefix(cut, lost); }
  }

  // ------------------------------------------------------------- chunk sizes

  lemma {:induction false} HexReads(n: nat, tail: string)
    ensures HexValue(ToHex(n) + tail, 0, |ToHex(n)|) == Some(n)
    ensures forall i :: 0 <= i < |ToHex(n)| ==> HexDigit(ToHex(n)[i]).Some?
  {
    var high, c := if n < 16 then "" else ToHex(n / 16), LowerHex(n % 16);
    assert ToHex(n) == high + [c];
    if n >= 16 { HexReads(n / 16, [c] + tail); }
    Regroup(high, [c], tail);
    HexEnds(high + [c] + tail, |high|, n / 16, c);
  }

  lemma {:induction false} HexEnds(s: string, k: nat, h: nat, c: char)
    requires k < |s| && s[k] == c && HexDigit(c).Some?
    requires HexValue(s, 0, k) == Some(h)
    ensures HexValue(s, 0, k + 1) == Some(h * 16 + HexDigit(c).value)
  {}

  lemma {:induction false} RunIs(s: string, n: nat)
    requires n < |s| && HexDigit(s[n]).None?
    requires forall i :: 0 <= i < n ==> HexDigit(s[i]).Some?
    ensures HexRun(s) == n
  {
    var r := HexRun(s);
  }

  lemma {:induction false} NumberReads(s: string, n: nat, v: nat)
    requires 0 < n < |s| && HexDigit(s[n]).None?
    requires forall i :: 0 <= i < n ==> HexDigit(s[i]).Some?
    requires HexValue(s, 0, n) == Some(v)
    ensures LeadingNumber(s, false) == Some(if v > ULONG_MAX then ULONG_MAX else v)
  {
    RunIs(s, n);
  }

  lemma {:induction false} NothingBeforeDigits(s: string)
    requires |s| > 1 && HexDigit(s[0]).Some? && s[1] != 'x' && s[1] != 'X'
    ensures SkipSpaces(s) == s && UnsignedPart(s) == s && s[0] != '-'
  {}

  lemma {:induction false} NoNul(s: string)
    requires '\0' !in s
    ensures CString(s) == s
  {
    NoneFound(s, '\0');
  }

  lemma {:induction false} LengthReads(s: string, v: nat)
    requires CString(s) == s && SkipSpaces(s) == s && UnsignedPart(s) == s && s != "" && s[0] != '-'
    requires LeadingNumber(s, false) == Some(v)
    ensures ChunkLength(s) == if v == ULONG_MAX then None else Some(v)
  {}

  /** A size line that starts with `n` digits, whatever follows them. */
  lemma {:induction false} SizeLine(s: string, n: nat, v: nat)
    requires 0 < n < |s| && HexDigit(s[n]).None? && s[n] != 'x' && s[n] != 'X' && '\0' !in s
    requires forall i :: 0 <= i < n ==> HexDigit(s[i]).Some?
    requires HexValue(s, 0, n) == Some(v)
    ensures ChunkLength(s) == if v < ULONG_MAX then Some(v) else None
  {
    NoNul(s);
    NumberReads(s, n, v);
    assert HexDigit(s[0]).Some?;
    NothingBeforeDigits(s);
    LengthReads(s, if v > ULONG_MAX then ULONG_MAX else v);
  }

  lemma {:induction false} HexHasNo(c: char, n: nat)
    requires HexDigit(c).None?
    ensures c !in ToHex(n)
  {
    HexReads(n, "");
  }

  /** The size line is read back, except for the one size that means overflow. */
  lemma {:induction false} SizeReads(n: nat)
    ensures ChunkLength(ToHex(n) + CRLF) == if n < ULONG_MAX then Some(n) else None
  {
    HexReads(n, CRLF);
    HexHasNo('\0', n);
    SizeLine(ToHex(n) + CRLF, |ToHex(n)|, n);
  }

  // ------------------------------------------------------- reading the chunks

  lemma {:induction false} FirstLineIs(line: string, rest: string)
    requires '\n' !in line
    ensures FirstLine(line + "\n" + rest) == line + "\n" && AfterLine(line + "\n" + rest) == rest
  {
    FindChar(line, '\n', rest);
  }

  /** A line that ends with CRLF. */
  lemma {:induction false} CrlfLine(line: string, rest: string)
    requires '\n' !in line
    ensures FirstLine(line + CRLF + rest) == line + CRLF && AfterLine(line + CRLF + rest) == rest
  {
    FirstLineIs(line + "\r", rest);
    assert line + CRLF == line + "\r" + "\n";
  }

  lemma {:induction false} SizeLineOf(n: nat, rest: string)
    ensures FirstLine(ToHex(n) + CRLF + rest) == ToHex(n) + CRLF && AfterLine(ToHex(n) + CRLF + rest) == rest
  {
    HexHasNo('\n', n);
    CrlfLine(ToHex(n), rest);
  }

  /** Reading on from `w`, which starts with a size line. */
  function DecodeAt(w: string, body: string): Option<Decoded> {
    DecodeFrom(FirstLine(w), AfterLine(w), body)
  }

  /** One chunk of the writer is one step of the reader. */
  lemma {:induction false} ChunkReads(d: string, w: string, body: string)
    requires d != "" && |d| < ULONG_MAX && w != ""
    ensures DecodeAt(Chunk(d) + w, body) == DecodeAt(w, body + d)
  {
    var size := ToHex(|d|) + CRLF;
    var input := d + (CRLF + w);
    assert Chunk(d) + w == size + input;
    SizeLineOf(|d|, input);
    SizeReads(|d|);
    assert input[..|d|] == d && input[|d|..] == CRLF + w;
    BlankLine(w);
    ChunkStep(size, input, body, |d|);
  }

  lemma {:induction false} BlankLine(w: string)
    ensures FirstLine(CRLF + w) == CRLF && AfterLine(CRLF + w) == w && CString(CRLF) == CRLF
  {
    CrlfLine("", w);
    assert "" + CRLF == CRLF;
    NoNul(CRLF);
  }

  /** Pieces the chunk format can carry. An empty one puts nothing on the wire. */
  predicate Sendable(d: string) {
    |d| < ULONG_MAX
  }

  lemma {:induction false} EmitsCons(d: string, ds: seq<string>)
    ensures Emits(Writes([d] + ds)) == Emit(Write(d)) + Emits(Writes(ds))
  {
    WritesAppend([d], ds);
    EmitsAppend(Writes([d]), Writes(ds));
    assert Writes([d]) == [Write(d)];
    EmitsOne(Write(d));
  }

  lemma {:induction false} PieceReads(d: string, w: string, body: string)
    requires Sendable(d) && w != ""
    ensures DecodeAt(Emit(Write(d)) + w, body) == DecodeAt(w, body + d)
  {
    if d == "" {
      assert "" + w == w && body + "" == body;
    } else {
      ChunkReads(d, w, body);
    }
  }

  lemma {:induction false} ChunksRead(ds: seq<string>, w: string, body: string)
    requires forall i :: 0 <= i < |ds| ==> Sendable(ds[i])
    requires w != ""
    ensures DecodeAt(Emits(Writes(ds)) + w, body) == DecodeAt(w, body + Concat(ds))
  {
    if ds == [] {
      assert Writes(ds) == [] && Emits([]) == "";
      assert "" + w == w && body + "" == body;
    } else {
      var d, rest := ds[0], Emits(Writes(ds[1..]));
      assert Sendable(d) && ds == [d] + ds[1..];
      EmitsCons(d, ds[1..]);
      Regroup(Emit(Write(d)), rest, w);
      assert rest + w != "";
      PieceReads(d, rest + w, body);
      ChunksRead(ds[1..], w, body + d);
      Regroup(body, d, Concat(ds[1..]));
    }
  }

  // ------------------------------------------------------ reading the trailer

  /** Fields whose lines stay lines, within the reader's limit. */
  predicate LineSafe(f: Field) {
    && ':' !in f.0 && '\n' !in f.0 && '\0' !in f.0
    && '\n' !in f.1 && '\0' !in f.1
    && |FieldLine(f)| <= HEADER_MAX_LENGTH
  }

  /** What the reader makes of a field: blanks around the value go, an empty value drops the field, and
      every value but that of `Location` is percent-decoded. */
  function ReadBack(f: Field): seq<Field> {
    var v := Trim(f.1);
    if v == "" then [] else [(f.0, if SameIgnoringCase(f.0, "Location") then v else Decode(v, false))]
  }

  function ReadBackAll(trailer: seq<Field>): seq<Field> {
    if trailer == [] then [] else ReadBack(trailer[0]) + ReadBackAll(trailer[1..])
  }

  lemma {:induction false} TrimRightAppend(a: string, v: string)
    ensures TrimRight(a + v) == if TrimRight(v) == "" then TrimRight(a) else a + TrimRight(v)
  {
    if v == "" {
      assert a + v == a;
    } else {
      assert (a + v)[|a + v| - 1] == v[|v| - 1];
      if IsBlank(v[|v| - 1]) {
        assert (a + v)[..|a + v| - 1] == a + v[..|v| - 1];
        TrimRightAppend(a, v[..|v| - 1]);
      }
    }
  }

  lemma {:induction false} TrimEitherOrder(v: string)
    ensures TrimLeft(TrimRight(v)) == Trim(v)
  {
    var r := TrimRight(v);
    var i := TrimLeftIsSlice(r);
    TrimRightDropsBlanks(v);
    TrimUnique(v, i, |r|);
    assert i < |r| ==> v[i..|r|] == r[i..];
  }

  /** The text `parse_header` looks for a colon in. */
  lemma {:induction false} FieldText(k: string, v: string)
    ensures TrimRight(k + ":" + v) == k + ":" + TrimRight(v)
  {
    TrimRightAppend(k + ":", v);
    if TrimRight(v) == "" { assert k + ":" + "" == k + ":"; }
  }

  lemma {:induction false} ColonFound(k: string, rest: string)
    requires ':' !in k
    ensures Find(k + ":" + rest, ":") == |k| && (k + ":" + rest)[|k| + 1..] == rest
  {
    FindChar(k, ':', rest);
  }

  /** `parse_header` behind its first loop, which has left `k:rest`. */
  lemma {:induction false} HeaderReads(s: string, k: string, rest: string)
    requires ':' !in k && TrimRight(s) == k + ":" + rest
    ensures TrimLeft(rest) == "" ==> ParseHeader(s) == None
    ensures TrimLeft(rest) != "" ==>
              ParseHeader(s)
              == Some((k, if SameIgnoringCase(k, "Location") then TrimLeft(rest) else Decode(TrimLeft(rest), false)))
  {
    ColonFound(k, rest);
    var t := k + ":" + rest;
    assert t[..|k|] == k;
  }

  /** What `parse_header` makes of a key, a colon and any value. */
  lemma {:induction false} FieldReads(k: string, v: string)
    requires ':' !in k
    ensures ParseHeader(k + ":" + v) == if ReadBack((k, v)) == [] then None else Some(ReadBack((k, v))[0])
  {
    FieldText(k, v);
    HeaderReads(k + ":" + v, k, TrimRight(v));
    TrimEitherOrder(v);
  }

  lemma {:induction false} NoColonNoField(s: string)
    requires ':' !in s
    ensures ParseHeader(s) == None
  {
    NoneFound(TrimRight(s), ':');
  }

  /** The blank that the writer puts in front of a value is not part of it. */
  lemma {:induction false} SpacedFieldReads(f: Field)
    requires ':' !in f.0
    ensures ParseHeader(f.0 + ": " + f.1) == if ReadBack(f) == [] then None else Some(ReadBack(f)[0])
  {
    assert f.0 + ": " + f.1 == f.0 + ":" + (" " + f.1);
    assert (" " + f.1)[1..] == f.1;
    FieldReads(f.0, " " + f.1);
  }

  lemma {:induction false} FieldLineReads(f: Field, rest: string, trailers: seq<Field>)
    requires LineSafe(f)
    ensures FirstLine(FieldLine(f) + rest) == FieldLine(f) && AfterLine(FieldLine(f) + rest) == rest
    ensures CString(FieldLine(f)) == FieldLine(f) != CRLF
    ensures WithField(trailers, FieldLine(f)) == trailers + ReadBack(f)
  {
    var text := f.0 + ": " + f.1;
    CrlfLine(text, rest);
    NoNul(FieldLine(f));
    var line := text + CRLF;
    assert line[..|line| - 2] == text;
    SpacedFieldReads(f);
    assert trailers + [] == trailers;
  }

  lemma {:induction false} TrailerReads(trailer: seq<Field>, body: string, so: seq<Field>)
    requires forall i :: 0 <= i < |trailer| ==> LineSafe(trailer[i])
    ensures var s := TrailerSection(trailer);
            DecodeTrailer(FirstLine(s), AfterLine(s), body, so) == Some(Decoded(body, so + ReadBackAll(trailer), ""))
  {
    var s := TrailerSection(trailer);
    if trailer == [] {
      BlankLine("");
      assert s == CRLF + "" && so + [] == so;
    } else {
      var f := trailer[0];
      var rest := TrailerSection(trailer[1..]);
      assert LineSafe(f);
      assert s == FieldLine(f) + rest;
      FieldLineReads(f, rest, so);
      TrailerStep(FieldLine(f), rest, body, so);
      TrailerReads(trailer[1..], body, so + ReadBack(f));
      Regroup(so, ReadBack(f), ReadBackAll(trailer[1..]));
    }
  }

  lemma {:induction false} TerminatorIs(trailer: seq<Field>)
    ensures Terminator(trailer) == ToHex(0) + CRLF + TrailerSection(trailer)
  {
    assert ToHex(0) == "0";
  }

  lemma {:induction false} LastChunkReads(w: string, s: string, body: string, r: Option<Decoded>)
    requires w == ToHex(0) + CRLF + s && s != ""
    requires DecodeTrailer(FirstLine(s), AfterLine(s), body, []) == r
    ensures DecodeAt(w, body) == r
  {
    SizeLineOf(0, s);
    SizeReads(0);
    LastChunkStep(ToHex(0) + CRLF, s, body);
  }

  lemma {:induction false} TerminatorReads(trailer: seq<Field>, body: string)
    requires forall i :: 0 <= i < |trailer| ==> LineSafe(trailer[i])
    ensures DecodeAt(Terminator(trailer), body) == Some(Decoded(body, ReadBackAll(trailer), ""))
  {
    TrailerReads(trailer, body, []);
    assert [] + ReadBackAll(trailer) == ReadBackAll(trailer);
    TerminatorIs(trailer);
    LastChunkReads(Terminator(trailer), TrailerSection(trailer), body, Some(Decoded(body, ReadBackAll(trailer), "")));
  }

  // ------------------------------------------------------------- the theorems

  lemma {:induction false} WholeBody(w: string, rest: string, body: string, trailers: seq<Field>)
    requires w != "" && DecodeAt(w, "") == Some(Decoded(body, trailers, ""))
    ensures DecodeChunked(w + rest) == Some(Decoded(body, trailers, rest))
  {
    SelfDelimiting(w, rest);
    assert "" + rest == rest;
  }

  lemma {:induction false} WrittenReads(ds: seq<string>, trailer: seq<Field>)
    requires forall i :: 0 <= i < |ds| ==> Sendable(ds[i])
    requires forall i :: 0 <= i < |trailer| ==> LineSafe(trailer[i])
    ensures DecodeAt(Emits(Writes(ds)) + Terminator(trailer), "")
            == Some(Decoded(Concat(ds), ReadBackAll(trailer), ""))
  {
    ChunksRead(ds, Terminator(trailer), "");
    assert "" + Concat(ds) == Concat(ds);
    TerminatorReads(trailer, Concat(ds));
  }

  /** Writes, then done: the reader delivers exactly the concatenation of the writes and the trailer fields
      as `parse_header` reads them, and leaves exactly the bytes behind the body. */
  lemma {:induction false} ReaderUndoesWriter(ds: seq<string>, trailer: seq<Field>, rest: string)
    requires forall i :: 0 <= i < |ds| ==> Sendable(ds[i])
    requires forall i :: 0 <= i < |trailer| ==> LineSafe(trailer[i])
    ensures DecodeChunked(Emits(Writes(ds) + [Done(trailer)]) + rest)
            == Some(Decoded(Concat(ds), ReadBackAll(trailer), rest))
  {
    EmitsAppend(Writes(ds), [Done(trailer)]);
    EmitsOne(Done(trailer));
    WrittenReads(ds, trailer);
    WholeBody(Emits(Writes(ds)) + Terminator(trailer), rest, Concat(ds), ReadBackAll(trailer));
  }

  /** Writes without done, which is how a session ends after an empty write: the reader never takes them
      for a body. */
  lemma {:induction false} UnfinishedIsRejected(ds: seq<string>)
    requires forall i :: 0 <= i < |ds| ==> Sendable(ds[i])
    ensures DecodeChunked(Emits(Writes(ds))) == None
  {
    var w := Emits(Writes(ds)) + Terminator([]);
    WrittenReads(ds, []);
    WholeBody(w, "", Concat(ds), []);
    assert w + "" == w;
    TruncationIsDetected(Emits(Writes(ds)), Terminator([]));
  }

  lemma {:induction false} TrimShortens(s: string)
    requires !Trimmed(s)
    ensures |Trim(s)| < |s|
  {
    var i, j := TrimIsSlice(s);
    TrimOfTrimmed(s);
    assert s[0..|s|] == s;
  }

  /** A field comes back as it was exactly when its value is neither empty nor has outer blanks, and has no escape
      or is that of `Location`. */
  lemma {:induction false} FieldKeptExactly(f: Field)
    ensures ReadBack(f) == [f] <==>
              f.1 != "" && Trimmed(f.1) && (SameIgnoringCase(f.0, "Location") || NoEscape(f.1))
  {
    var v := Trim(f.1);
    DecodeKeepsExactly(v, false);
    DecodeNotLonger(v, false);
    if Trimmed(f.1) { TrimOfTrimmed(f.1); } else { TrimShortens(f.1); }
  }
}
