/** `write_content_chunked` of httplib.h without compression: a content provider writes into a sink, and the
    sink puts chunks (section 4.1 of RFC 7230) on the connection. */
module ChunkedWriter {
  import opened Bytes
  import opened Chunked

  // ------------------------------------------------------------- wire format

  /** One chunk: size in hexadecimal, data, line ends. */
  function Chunk(d: string): string { ToHex(|d|) + CRLF + d + CRLF }

  function FieldLine(f: Field): string { f.0 + ": " + f.1 + CRLF }

  function FieldLines(trailer: seq<Field>): string {
    if trailer == [] then "" else FieldLine(trailer[0]) + FieldLines(trailer[1..])
  }

  function TrailerSection(trailer: seq<Field>): string { FieldLines(trailer) + CRLF }

  /** The last chunk and the trailer section. */
  function Terminator(trailer: seq<Field>): string { "0" + CRLF + TrailerSection(trailer) }

  /** What a provider does to its sink. */
  datatype Op = Write(data: string) | Done(trailer: seq<Field>)

  function Emit(op: Op): string {
    match op
    case Write(d) => if d == "" then "" else Chunk(d)
    case Done(trailer) => Terminator(trailer)
  }

  function Texts(ops: seq<Op>): seq<string> {
    seq(|ops|, i requires 0 <= i < |ops| => Emit(ops[i]))
  }

  function Emits(ops: seq<Op>): string { Concat(Texts(ops)) }

  lemma {:induction false} EmitsAppend(a: seq<Op>, b: seq<Op>)
    ensures Emits(a + b) == Emits(a) + Emits(b)
  {
    assert Texts(a + b) == Texts(a) + Texts(b);
    ConcatAppend(Texts(a), Texts(b));
  }

  lemma {:induction false} EmitsOne(op: Op)
    ensures Emits([op]) == Emit(op)
  {
    assert Texts([op]) == [Emit(op)];
    ConcatOne(Emit(op));
  }

  function Writes(ds: seq<string>): seq<Op> {
    seq(|ds|, i requires 0 <= i < |ds| => Write(ds[i]))
  }

  lemma {:induction false} WritesAppend(a: seq<string>, b: seq<string>)
    ensures Writes(a + b) == Writes(a) + Writes(b)
  {}

  lemma {:induction false} FieldLinesSnoc(t: seq<Field>, f: Field)
    ensures FieldLines(t + [f]) == FieldLines(t) + FieldLine(f)
  {
    if t != [] {
      FieldLinesSnoc(t[1..], f);
      assert (t + [f])[1..] == t[1..] + [f];
    }
  }

  // ------------------------------------------------- the effect of operations

  /** How far the writer's running offset moves. */
  function Written(ops: seq<Op>): nat {
    if ops == [] then 0
    else (match ops[0] case Write(d) => |d| case Done(_) => 0) + Written(ops[1..])
  }

  /** `data_available` afterwards. */
  function AvailableAfter(available: bool, ops: seq<Op>): bool {
    if ops == [] then available
    else
      match ops[|ops| - 1]
      case Write(d) => d != ""
      case Done(_) => false
  }

  lemma {:induction false} WrittenAppend(a: seq<Op>, b: seq<Op>)
    ensures Written(a + b) == Written(a) + Written(b)
  {
    if a == [] {
      assert a + b == b;
    } else {
      WrittenAppend(a[1..], b);
      assert (a + b)[1..] == a[1..] + b;
    }
  }

  // ---------------------------------------------------------------- provider

  /** One call of a content provider that keeps the state `next` between calls. */
  datatype Turn<S> = Turn(next: S, ops: seq<Op>, ok: bool)

  type Provider<!S> = (S, nat) -> Turn<S>

  datatype End = NoMoreData | ShutDown | Canceled

  datatype Session = Session(ops: seq<Op>, end: End)

  /** The calls the writer makes when the connection never fails: until the provider says there is no more
      data or fails, or until the server shuts down, which the writer notices at its poll number `polls`. */
  function Drive<S>(provider: Provider<S>, s: S, offset: nat, polls: nat): Session
    decreases polls
  {
    if polls == 0 then Session([], ShutDown)
    else
      var t := provider(s, offset);
      if !t.ok then Session(t.ops, Canceled)
      else if !AvailableAfter(true, t.ops) then Session(t.ops, NoMoreData)
      else
        var rest := Drive(provider, t.next, offset + Written(t.ops), polls - 1);
        Session(t.ops + rest.ops, rest.end)
  }

  // -------------------------------------------------------------- connection

  /** A stream for writing. `broken` records that a write or a poll has failed. */
  class OutStream {
    var wire: string
    var broken: bool

    constructor ()
      ensures wire == "" && !broken
    {
      wire, broken := "", false;
    }

    method IsWritable() returns (r: bool)
      modifies `broken
      ensures !r ==> broken
      ensures r ==> broken == old(broken)
    {
      if * { broken := true; return false; }
      return true;
    }

    /** `write`: some bytes of `d`, at least one, or -1. */
    method Send(d: string) returns (n: int)
      requires d != ""
      modifies this
      ensures n < 0 ==> broken && wire == old(wire)
      ensures n >= 0 ==> 0 < n <= |d| && broken == old(broken) && wire == old(wire) + d[..n]
    {
      if * { broken := true; return -1; }
      var k: nat :| 1 <= k <= |d|;
      wire := wire + d[..k];
      return k;
    }

    /** `write_data`: all of `d`, or a proper part from its front. */
    method WriteData(d: string) returns (ok: bool)
      modifies this
      ensures ok ==> broken == old(broken) && wire == old(wire) + d
      ensures !ok ==> broken && exists k: nat :: k < |d| && wire == old(wire) + d[..k]
    {
      var offset := 0;
      assert d[..0] == "";
      while offset < |d|
        invariant 0 <= offset <= |d|
        invariant broken == old(broken) && wire == old(wire) + d[..offset]
      {
        var length := Send(d[offset..]);
        if length < 0 { return false; }
        assert d[offset..][..length] == d[offset..offset + length];
        assert d[..offset] + d[offset..offset + length] == d[..offset + length];
        offset := offset + length;
      }
      assert d[..|d|] == d;
      return true;
    }
  }

  /** The `DataSink` of `write_content_chunked` with the variables it captures. */
  class ChunkedSink {
    const strm: OutStream
    var offset: nat
    var dataAvailable: bool
    var ok: bool

    constructor (strm: OutStream)
      ensures this.strm == strm && offset == 0 && dataAvailable && ok
    {
      this.strm := strm;
      offset, dataAvailable, ok := 0, true, true;
    }

    /** `data_sink.write`. */
    method WriteChunk(d: string) returns (r: bool)
      modifies this, strm
      ensures r == ok && (ok ==> old(ok))
      ensures !old(ok) ==> strm.wire == old(strm.wire) && strm.broken == old(strm.broken)
      ensures !old(ok) ==> offset == old(offset) && dataAvailable == old(dataAvailable)
      ensures old(ok) ==> offset == old(offset) + |d| && dataAvailable == (d != "")
      ensures ok ==> strm.broken == old(strm.broken) && strm.wire == old(strm.wire) + Emit(Write(d))
      ensures !ok && old(ok) ==> strm.broken && old(strm.wire) <= strm.wire < old(strm.wire) + Emit(Write(d))
    {
      if ok {
        dataAvailable := |d| > 0;
        offset := offset + |d|;
        if d != "" {
          var size := FromIToHex(|d|);
          var writable := strm.IsWritable();
          if writable {
            ok := strm.WriteData(size + CRLF + d + CRLF);
          } else {
            ok := false;
          }
        }
      }
      return ok;
    }

    /** `done_with_trailer`; `done` is the case of no fields. After a failed write it still attempts the
        others. */
    method DoneWithTrailer(trailer: seq<Field>)
      modifies this, strm
      ensures ok ==> old(ok)
      ensures offset == old(offset) && dataAvailable == (old(dataAvailable) && !old(ok))
      ensures !old(ok) ==> strm.wire == old(strm.wire) && strm.broken == old(strm.broken)
      ensures ok ==> strm.broken == old(strm.broken) && strm.wire == old(strm.wire) + Terminator(trailer)
      ensures !ok && old(ok) ==> strm.broken && old(strm.wire) <= strm.wire
    {
      if !ok { return; }
      dataAvailable := false;
      var sent := strm.WriteData("0" + CRLF);
      ok := sent;
      assert trailer[..0] == [];
      for i := 0 to |trailer|
        invariant offset == old(offset) && !dataAvailable
        invariant old(strm.wire) <= strm.wire
        invariant if ok then strm.broken == old(strm.broken) else strm.broken
        invariant ok ==> strm.wire == old(strm.wire) + ("0" + CRLF + FieldLines(trailer[..i]))
      {
        var kv := trailer[i];
        sent := strm.WriteData(kv.0 + ": " + kv.1 + CRLF);
        if !sent { ok := false; }
        assert trailer[..i + 1] == trailer[..i] + [kv];
        FieldLinesSnoc(trailer[..i], kv);
      }
      assert trailer[..|trailer|] == trailer;
      Regroup("0" + CRLF, FieldLines(trailer), CRLF);
      sent := strm.WriteData(CRLF);
      if !sent { ok := false; }
    }

    method PerformOne(op: Op)
      modifies this, strm
      ensures ok ==> old(ok)
      ensures ok ==> strm.broken == old(strm.broken) && strm.wire == old(strm.wire) + Emit(op)
      ensures ok ==> offset == old(offset) + Written([op])
      ensures ok ==> dataAvailable == AvailableAfter(old(dataAvailable), [op])
      ensures !ok ==> strm.broken || (!old(ok) && strm.broken == old(strm.broken))
      ensures old(strm.wire) <= strm.wire
    {
      match op {
        case Write(d) => var r := WriteChunk(d);
        case Done(trailer) => DoneWithTrailer(trailer);
      }
    }

    /** What one call of the provider does to the sink. */
    method Perform(ops: seq<Op>)
      requires ok && !strm.broken
      modifies this, strm
      ensures ok ==> !strm.broken && strm.wire == old(strm.wire) + Emits(ops)
      ensures ok ==> offset == old(offset) + Written(ops)
      ensures ok ==> dataAvailable == AvailableAfter(old(dataAvailable), ops)
      ensures !ok ==> strm.broken
      ensures old(strm.wire) <= strm.wire
    {
      ghost var wire, off, available := strm.wire, offset, dataAvailable;
      for i := 0 to |ops|
        invariant ok ==> Performed(wire, off, available, ops[..i])
        invariant ok <==> !strm.broken
        invariant wire <= strm.wire
      {
        PerformOne(ops[i]);
        assert ops[..i + 1] == ops[..i] + [ops[i]];
        OneMore(wire, available, ops[..i], ops[i]);
        WrittenAppend(ops[..i], [ops[i]]);
      }
      assert ops[..|ops|] == ops;
    }

    ghost predicate Performed(wire: string, off: nat, available: bool, ops: seq<Op>)
      reads this, strm
    {
      && strm.wire == wire + Emits(ops)
      && offset == off + Written(ops)
      && dataAvailable == AvailableAfter(available, ops)
    }
  }

  lemma {:induction false} OneMore(wire: string, available: bool, ops: seq<Op>, op: Op)
    ensures wire + Emits(ops + [op]) == (wire + Emits(ops)) + Emit(op)
    ensures AvailableAfter(available, ops + [op]) == AvailableAfter(AvailableAfter(available, ops), [op])
  {
    EmitsAppend(ops, [op]);
    EmitsOne(op);
    Regroup(wire, Emits(ops), Emit(op));
  }

  datatype Error = Success | WriteError | CanceledError

  /** One round of the loop of `write_content_chunked`: the provider's turn reaches the sink. */
  method Serve<S>(sink: ChunkedSink, turn: Turn<S>) returns (ok: bool, error: Error)
    requires sink.ok && sink.dataAvailable && !sink.strm.broken
    modifies sink, sink.strm
    ensures error == if !turn.ok then CanceledError else if sink.ok then Success else WriteError
    ensures ok <==> error == Success
    ensures sink.ok ==> !sink.strm.broken && sink.strm.wire == old(sink.strm.wire) + Emits(turn.ops)
    ensures sink.ok ==> sink.offset == old(sink.offset) + Written(turn.ops)
    ensures sink.ok ==> sink.dataAvailable == AvailableAfter(true, turn.ops)
    ensures !sink.ok ==> sink.strm.broken
    ensures old(sink.strm.wire) <= sink.strm.wire
  {
    sink.Perform(turn.ops);
    if !turn.ok { return false, CanceledError; }
    if !sink.ok { return false, WriteError; }
    return true, Success;
  }

  /** `write_content_chunked`. Unless the connection fails, the wire carries exactly what the provider did,
      and the verdict tells whether the provider failed. Success means the connection did not fail. */
  method WriteContentChunked<S>(strm: OutStream, provider: Provider<S>, initial: S, polls: nat)
    returns (ok: bool, error: Error)
    requires !strm.broken
    modifies strm
    ensures ok <==> error == Success
    ensures ok ==> !strm.broken
    ensures error == WriteError ==> strm.broken
    ensures !strm.broken ==> strm.wire == old(strm.wire) + Emits(Drive(provider, initial, 0, polls).ops)
    ensures !strm.broken ==> (ok <==> Drive(provider, initial, 0, polls).end != Canceled)
    ensures old(strm.wire) <= strm.wire
  {
    var sink := new ChunkedSink(strm);
    var state := initial;
    var k := 0;
    ghost var wire := strm.wire;
    ghost var all := Drive(provider, initial, 0, polls);
    ghost var done: seq<Op> := [];
    while sink.dataAvailable && k < polls
      invariant fresh(sink) && sink.strm == strm && sink.ok && k <= polls
      invariant !strm.broken && strm.wire == wire + Emits(done)
      invariant GoesOn(all, done, sink.dataAvailable, provider, state, sink.offset, polls - k)
    {
      var writable := strm.IsWritable();
      if !writable { return false, WriteError; }
      var turn := provider(state, sink.offset);
      ghost var left := polls - (k + 1);
      GoOn(all, done, provider, state, sink.offset, polls - k, left, wire, turn);
      ok, error := Serve(sink, turn);
      if !ok { return; }
      done := done + turn.ops;
      state := turn.next;
      k := k + 1;
      assert left == polls - k;
    }
    Stopped(all, done, sink.dataAvailable, provider, state, sink.offset);
    return true, Success;
  }

  /** The session consists of what has been done and what the writer would still do. */
  ghost predicate GoesOn<S>(all: Session, done: seq<Op>, available: bool, provider: Provider<S>, s: S,
                            offset: nat, polls: nat)
  {
    if available then
      var rest := Drive(provider, s, offset, polls);
      all == Session(done + rest.ops, rest.end)
    else all == Session(done, NoMoreData)
  }

  lemma {:induction false} Stopped<S>(all: Session, done: seq<Op>, available: bool, provider: Provider<S>, s: S,
                                      offset: nat)
    requires GoesOn(all, done, available, provider, s, offset, 0)
    ensures all.ops == done && all.end != Canceled
  {
    assert done + [] == done;
  }

  lemma {:induction false} GoOn<S>(all: Session, done: seq<Op>, provider: Provider<S>, s: S, offset: nat, polls: nat,
                                   left: nat, wire: string, t: Turn<S>)
    requires polls == left + 1 && GoesOn(all, done, true, provider, s, offset, polls) && t == provider(s, offset)
    ensures t.ok ==> GoesOn(all, done + t.ops, AvailableAfter(true, t.ops), provider, t.next,
                            offset + Written(t.ops), left)
    ensures !t.ok ==> all == Session(done + t.ops, Canceled)
    ensures wire + Emits(done + t.ops) == (wire + Emits(done)) + Emits(t.ops)
  {
    EmitsAppend(done, t.ops);
    Regroup(wire, Emits(done), Emits(t.ops));
    if t.ok && AvailableAfter(true, t.ops) {
      Regroup(done, t.ops, Drive(provider, t.next, offset + Written(t.ops), left).ops);
    }
  }
}
