/** Chunked transfer coding (section 4.1 of RFC 7230) in httplib.h: the writer `write_content_chunked`
    without compression, and the reader `read_content_chunked`. */
module Chunked {
  import opened Wrappers
  import opened Bytes
  import opened TextCodec
  import opened Streams

  const ULONG_MAX: nat := 0xffff_ffff_ffff_ffff
  const HEADER_MAX_LENGTH: nat := 8192
  const CHUNK_LINE_BUFSIZ: nat := 16

  type Field = (string, string)

  // ----------------------------------------------------------- numbers in hex

  function LowerHex(d: nat): (c: char)
    requires d < 16
    ensures HexDigit(c) == Some(d) && IsAlnum(c) && c != 'x' && c != 'X'
  {
    if d < 10 then ('0' as nat + d) as char else ('a' as nat + d - 10) as char
  }

  function ToHex(n: nat): (r: string)
    ensures r != ""
  {
    (if n < 16 then "" else ToHex(n / 16)) + [LowerHex(n % 16)]
  }

  /** `from_i_to_hex`: digits are put in front, at least one. */
  method FromIToHex(n: nat) returns (ret: string)
    ensures ret == ToHex(n)
  {
    var m := n;
    ret := [LowerHex(m % 16)];
    m := m / 16;
    while m > 0
      invariant ToHex(n) == (if m == 0 then "" else ToHex(m)) + ret
    {
      HexStep(m, ret);
      ret := [LowerHex(m % 16)] + ret;
      m := m / 16;
    }
  }

  lemma {:induction false} HexStep(m: nat, ret: string)
    requires m > 0
    ensures ToHex(m) + ret == (if m / 16 == 0 then "" else ToHex(m / 16)) + ([LowerHex(m % 16)] + ret)
  {}

  /** How many hexadecimal digits a text starts with. */
  function HexRun(s: string): (n: nat)
    ensures n <= |s|
    ensures forall i :: 0 <= i < n ==> HexDigit(s[i]).Some?
    ensures n < |s| ==> HexDigit(s[n]).None?
  {
    if s == "" || HexDigit(s[0]).None? then 0
    else
      var n := HexRun(s[1..]);
      assert forall i :: 1 <= i < n + 1 ==> s[i] == s[1..][i - 1];
      n + 1
  }

  lemma {:induction false} RunHasValue(s: string, n: nat)
    requires n <= |s| && forall i :: 0 <= i < n ==> HexDigit(s[i]).Some?
    ensures HexValue(s, 0, n).Some?
  {
    if n > 0 { RunHasValue(s, n - 1); }
  }

  /** A text without its sign and its 0x. */
  function UnsignedPart(t: string): string {
    var u := if t != "" && (t[0] == '+' || t[0] == '-') then t[1..] else t;
    if |u| > 2 && u[0] == '0' && (u[1] == 'x' || u[1] == 'X') && HexDigit(u[2]).Some? then u[2..] else u
  }

  /** The value of the digits that `d` starts with, saturated, and negated in the range of the type. */
  function LeadingNumber(d: string, negative: bool): (r: Option<nat>)
    ensures r.Some? ==> r.value <= ULONG_MAX
  {
    var n := HexRun(d);
    if n == 0 then None
    else
      RunHasValue(d, n);
      var v := HexValue(d, 0, n).value;
      if v > ULONG_MAX then Some(ULONG_MAX)
      else Some(if negative then (ULONG_MAX + 1 - v) % (ULONG_MAX + 1) else v)
  }

  /** `strtoul(s, &end, 16)`: blanks, a sign, an optional 0x, digits; `None` when there are no digits. */
  function Strtoul(s: string): (r: Option<nat>)
    ensures r.Some? ==> r.value <= ULONG_MAX
  {
    var t := SkipSpaces(s);
    LeadingNumber(UnsignedPart(t), t != "" && t[0] == '-')
  }

  // --------------------------------------------------------------- header fields

  predicate SameIgnoringCase(a: string, b: string) {
    |a| == |b| && forall i :: 0 <= i < |a| ==> ToLower(a[i]) == ToLower(b[i])
  }

  /** `parse_header` on one line without its terminator. */
  function ParseHeader(s: string): Option<Field> {
    var t := TrimRight(s);
    var c := Find(t, ":");
    if c == |t| then None
    else
      var val := TrimLeft(t[c + 1..]);
      if val == "" then None
      else Some((t[..c], if SameIgnoringCase(t[..c], "Location") then val else Decode(val, false)))
  }

  /** Where the text ends without its blanks. */
  method SkipBlanksBack(s: string) returns (end: nat)
    ensures end <= |s| && s[..end] == TrimRight(s)
  {
    end := |s|;
    assert s[..end] == s;
    while end > 0 && IsBlank(s[end - 1])
      invariant 0 <= end <= |s| && TrimRight(s) == TrimRight(s[..end])
    {
      assert s[..end][..end - 1] == s[..end - 1];
      end := end - 1;
    }
  }

  method SkipBlanks(s: string, start: nat) returns (p: nat)
    requires start <= |s|
    ensures start <= p <= |s| && s[p..] == TrimLeft(s[start..])
  {
    p := start;
    while p < |s| && IsBlank(s[p])
      invariant start <= p <= |s| && TrimLeft(s[start..]) == TrimLeft(s[p..])
    {
      assert s[p..][1..] == s[p + 1..];
      p := p + 1;
    }
  }

  /** The loops of `parse_header`. */
  method ParseHeaderLoop(s: string) returns (r: Option<Field>)
    ensures r == ParseHeader(s)
  {
    var end := SkipBlanksBack(s);
    var t := s[..end];
    var p := 0;
    while p < end && t[p] != ':'
      invariant 0 <= p <= end && forall i :: 0 <= i < p ==> t[i] != ':'
    {
      p := p + 1;
    }
    FindCharAt(t, ':', p);
    if p == end { return None; }
    var key := t[..p];
    p := SkipBlanks(t, p + 1);
    if p == end { return None; }
    if SameIgnoringCase(key, "Location") { return Some((key, t[p..])); }
    var decoded := DecodeUrl(t[p..], false);
    return Some((key, decoded));
  }

  // ------------------------------------------------------------------ the reader

  function FirstLine(s: string): string { s[..LineEnd(s)] }

  function AfterLine(s: string): (r: string)
    ensures s != "" ==> |r| < |s|
  {
    s[LineEnd(s)..]
  }

  /** What `strcmp` sees of a line. */
  function CString(s: string): string { s[..Find(s, "\0")] }

  datatype Decoded = Decoded(body: string, trailers: seq<Field>, rest: string)

  predicate DecodedAs(body: string, trailers: seq<Field>, rest: string, d: Option<Decoded>) {
    d == Some(Decoded(body, trailers, rest))
  }

  /** The size a chunk-size line gives; `None` makes the reader give up. */
  function ChunkLength(line: string): Option<nat> {
    match Strtoul(CString(line))
    case None => None
    case Some(n) => if n == ULONG_MAX then None else Some(n)
  }

  /** The body whose next chunk-size line is `line`, followed by `input`. */
  function DecodeFrom(line: string, input: string, body: string): Option<Decoded>
    decreases |input|
  {
    match ChunkLength(line)
    case None => None
    case Some(len) =>
      if len == 0 then (if input == "" then None else DecodeTrailer(FirstLine(input), AfterLine(input), body, []))
      else if len > |input| then None
      else
        var after := input[len..];
        if after == "" || CString(FirstLine(after)) != CRLF then None
        else
          var next := AfterLine(after);
          if next == "" then None else DecodeFrom(FirstLine(next), AfterLine(next), body + input[..len])
  }

  function WithField(trailers: seq<Field>, line: string): seq<Field> {
    if |line| < 2 then trailers
    else
      match ParseHeader(line[..|line| - 2])
      case None => trailers
      case Some(field) => trailers + [field]
  }

  /** The trailer section at the line `line`, followed by `input`. */
  function DecodeTrailer(line: string, input: string, body: string, trailers: seq<Field>): Option<Decoded>
    decreases |input|
  {
    if CString(line) == CRLF then Some(Decoded(body, trailers, input))
    else if |line| > HEADER_MAX_LENGTH || input == "" then None
    else DecodeTrailer(FirstLine(input), AfterLine(input), body, WithField(trailers, line))
  }

  function DecodeChunked(input: string): Option<Decoded> {
    if input == "" then None else DecodeFrom(FirstLine(input), AfterLine(input), "")
  }

  /** The answer of the content receiver to everything it has got so far. */
  type Receiver = string -> bool

  ghost predicate Accepts(accept: Receiver) {
    forall s :: accept(s)
  }

  /** `read_content_with_length`: pieces of at most `RECV_BUFSIZ` bytes go to the receiver. */
  method ReadContentWithLength(stream: SocketStream, len: nat, got: string, accept: Receiver)
    returns (ok: bool, body: string)
    requires stream.Valid()
    modifies stream, stream.sock, stream.readBuff
    ensures stream.Valid()
    ensures !stream.sock.broken ==> !old(stream.sock.broken)
    ensures ok ==> len <= |old(stream.Unread())| && body == got + old(stream.Unread())[..len]
    ensures ok ==> stream.Unread() == old(stream.Unread())[len..]
    ensures ok && len > 0 ==> accept(body)
    ensures !ok && Accepts(accept) ==> stream.sock.broken || len > |old(stream.Unread())|
  {
    ghost var all := stream.Unread();
    var buf := new char[RECV_BUFSIZ](_ => '\0');
    var r := 0;
    body := got;
    while r < len
      invariant stream.Valid() && fresh(buf)
      invariant !stream.sock.broken ==> !old(stream.sock.broken)
      invariant r <= len && r <= |all| && body == got + all[..r] && stream.Unread() == all[r..]
      invariant r > 0 ==> accept(body)
    {
      var readLen := len - r;
      var n := stream.Read(buf, if readLen < RECV_BUFSIZ then readLen else RECV_BUFSIZ);
      if n <= 0 { return false, body; }
      Advance(all, r, buf[..n], stream.Unread(), got);
      body := body + buf[..n];
      if !accept(body) { return false, body; }
      r := r + n;
    }
    return true, body;
  }

  lemma {:induction false} Advance(all: string, r: nat, piece: string, rest: string, got: string)
    requires r <= |all| && piece + rest == all[r..]
    ensures r + |piece| <= |all| && rest == all[r + |piece|..]
    ensures (got + all[..r]) + piece == got + all[..r + |piece|]
  {
    assert all[r..][..|piece|] == piece && all[r..][|piece|..] == rest;
  }

  /** What a chunk of `len` bytes leaves when everything is as it should be. */
  ghost predicate ChunkFits(all: string, len: nat) {
    len <= |all| && all[len..] != "" && CString(FirstLine(all[len..])) == CRLF && AfterLine(all[len..]) != ""
  }

  /** The part of the loop behind a non-zero size: the data, its line end, the next size line. */
  method ReadChunk(reader: LineReader, len: nat, got: string, accept: Receiver) returns (ok: bool, body: string)
    requires reader.Valid()
    modifies reader, reader.fixedBuffer, reader.stream, reader.stream.sock, reader.stream.readBuff
    ensures reader.Valid()
    ensures !reader.stream.sock.broken ==> !old(reader.stream.sock.broken)
    ensures ok ==> ChunkFits(old(reader.stream.Unread()), len)
    ensures ok ==> body == got + old(reader.stream.Unread())[..len]
    ensures ok && len > 0 ==> accept(body)
    ensures ok ==> reader.Line() == FirstLine(AfterLine(old(reader.stream.Unread())[len..]))
    ensures ok ==> reader.stream.Unread() == AfterLine(AfterLine(old(reader.stream.Unread())[len..]))
    ensures !ok && Accepts(accept) ==> reader.stream.sock.broken || !ChunkFits(old(reader.stream.Unread()), len)
  {
    ok, body := ReadContentWithLength(reader.stream, len, got, accept);
    if !ok { return; }
    ok := reader.GetLine();
    if !ok { return; }
    if CString(reader.Line()) != CRLF { return false, body; }
    ok := reader.GetLine();
  }

  lemma {:induction false} TrailerStep(line: string, input: string, body: string, trailers: seq<Field>)
    requires CString(line) != CRLF && |line| <= HEADER_MAX_LENGTH
    ensures input == "" ==> DecodeTrailer(line, input, body, trailers) == None
    ensures input != "" ==> DecodeTrailer(line, input, body, trailers)
                            == DecodeTrailer(FirstLine(input), AfterLine(input), body, WithField(trailers, line))
  {}

  /** What the trailer loop makes of a field line. */
  method AddField(trailers: seq<Field>, line: string) returns (r: seq<Field>)
    ensures r == WithField(trailers, line)
  {
    if |line| < 2 { return trailers; }
    var field := ParseHeaderLoop(line[..|line| - 2]);
    return if field.Some? then trailers + [field.value] else trailers;
  }

  /** The trailer loop: field lines up to an empty line. */
  method ReadTrailer(reader: LineReader, ghost body: string) returns (ok: bool, trailers: seq<Field>)
    requires reader.Valid()
    modifies reader, reader.fixedBuffer, reader.stream, reader.stream.sock, reader.stream.readBuff
    ensures reader.Valid()
    ensures !reader.stream.sock.broken ==> !old(reader.stream.sock.broken)
    ensures ok ==> DecodedAs(body, trailers, reader.stream.Unread(),
                             old(DecodeTrailer(reader.Line(), reader.stream.Unread(), body, [])))
    ensures !ok && !reader.stream.sock.broken ==>
              old(DecodeTrailer(reader.Line(), reader.stream.Unread(), body, [])) == None
  {
    trailers := [];
    ghost var goal := DecodeTrailer(reader.Line(), reader.stream.Unread(), body, []);
    while CString(reader.Line()) != CRLF
      invariant reader.Valid()
      invariant !reader.stream.sock.broken ==> !old(reader.stream.sock.broken)
      invariant DecodeTrailer(reader.Line(), reader.stream.Unread(), body, trailers) == goal
      decreases |reader.stream.Unread()|
    {
      if |reader.Line()| > HEADER_MAX_LENGTH { return false, trailers; }
      TrailerStep(reader.Line(), reader.stream.Unread(), body, trailers);
      trailers := AddField(trailers, reader.Line());
      ok := reader.GetLine();
      if !ok { return; }
    }
    return true, trailers;
  }

  /** `read_content_chunked`: unless the socket fails, it delivers exactly the decoded body and trailer
      fields and leaves exactly the bytes behind the body unread, or fails when there is no such body. */
  method ReadContentChunked(stream: SocketStream, headers0: seq<Field>, accept: Receiver)
    returns (ok: bool, body: string, headers: seq<Field>)
    requires stream.Valid()
    modifies stream, stream.sock, stream.readBuff
    ensures stream.Valid()
    ensures ok ==> |headers0| <= |headers| && headers[..|headers0|] == headers0
    ensures ok ==> DecodedAs(body, headers[|headers0|..], stream.Unread(), DecodeChunked(old(stream.Unread())))
    ensures ok && body != "" ==> accept(body)
    ensures !ok && Accepts(accept) ==> stream.sock.broken || DecodeChunked(old(stream.Unread())) == None
  {
    body, headers := "", headers0;
    ghost var goal := DecodeChunked(stream.Unread());
    var buf := new char[CHUNK_LINE_BUFSIZ](_ => '\0');
    var reader := new LineReader(stream, buf);
    ok := reader.GetLine();
    if !ok { return; }
    while true
      invariant reader.Valid() && fresh(reader) && fresh(buf)
      invariant DecodeFrom(reader.Line(), stream.Unread(), body) == goal
      invariant body != "" ==> accept(body)
      decreases |stream.Unread()|
    {
      var chunkLen := ChunkLength(reader.Line());
      if chunkLen.None? { return false, body, headers; }
      if chunkLen.value == 0 { break; }
      ok, body := ReadChunk(reader, chunkLen.value, body, accept);
      if !ok { return; }
    }
    ok := reader.GetLine();
    if !ok { return; }
    var trailers;
    ok, trailers := ReadTrailer(reader, body);
    if ok { headers := headers0 + trailers; }
  }
}
