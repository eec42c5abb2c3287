/** A streamed multipart upload, end to end: content provider, chunked writer, chunked reader, multipart
    parser. */
module MultipartUpload {
  import opened Wrappers
  import opened Bytes
  import opened Multipart
  import opened MultipartPieces
  import opened MultipartRoundTrip
  import opened MultipartProvider
  import C = Chunked
  import opened ChunkedWriter
  import opened ChunkedRoundTrip

  /** Each write fits a chunk. */
  ghost predicate AllSendable(ops: seq<Op>) {
    forall op :: op in ops && op.Write? ==> Sendable(op.data)
  }

  lemma {:induction false} SendableWrites(ds: seq<string>, tail: seq<Op>)
    requires AllSendable(Writes(ds) + tail)
    ensures forall i :: 0 <= i < |ds| ==> Sendable(ds[i])
  {
    forall i | 0 <= i < |ds| ensures Sendable(ds[i]) {
      assert (Writes(ds) + tail)[i] == Write(ds[i]);
    }
  }

  /** A streamed upload arrives: the reader decodes the one-shot body of all items and leaves what follows
      it, and the parser, fed that body in any pieces, reports exactly the items. */
  lemma {:induction false} UploadArrives<S(!new)>(items: seq<Item>, ps: seq<ProviderItem<S>>, boundary: string,
                                                  fuel: nat, inner: S, polls: nat, rest: string, pieces: seq<string>,
                                                  accept: Receiver)
    requires AllComplete(ps, fuel) && polls >= UploadCalls(items, ps, fuel)
    requires AllSendable(Drive(ProviderOf(items, ps, boundary), Cursor(0, 0, inner), 0, polls).ops)
    requires var all := items + MaterialisedFrom(ps, fuel, 0);
             && all != [] && AllCarriable(all, boundary) && AllShort(all)
             && pieces != [] && Concat(pieces) == Serialize(all, boundary)
    requires Accepts(accept) && BoundaryCharsValid(boundary) && |pieces[0]| >= |DashBoundaryCrlf(boundary)|
    ensures var session := Drive(ProviderOf(items, ps, boundary), Cursor(0, 0, inner), 0, polls);
            C.DecodeChunked(Emits(session.ops) + rest) == Some(C.Decoded(Concat(pieces), [], rest))
    ensures var all := items + MaterialisedFrom(ps, fuel, 0);
            var o := FeedAll(Start(boundary), pieces, accept);
            o.ok && o.p.valid && Parts(o.p.log) == PartsOf(all)
  {
    var ds := UploadWrites(items, ps, boundary, fuel);
    UploadSession(items, ps, boundary, fuel, inner, polls);
    SendableWrites(ds, [Done([])]);
    UploadBytes(items, ps, boundary, fuel);
    ReaderUndoesWriter(ds, [], rest);
    RoundTripInPieces(items + MaterialisedFrom(ps, fuel, 0), boundary, pieces, accept);
  }

  // ---------------------------------------------------------- all or nothing

  /** A call writes, and says done only as its last act. */
  ghost predicate Shaped<C>(t: Turn<C>) {
    (exists ds :: t.ops == Writes(ds)) || (t.ok && exists ds :: t.ops == Writes(ds) + [Done([])])
  }

  lemma {:induction false} DelegateIsShaped<S>(p: ProviderItem<S>, c: Cursor<S>, offset: nat, before: seq<string>)
    ensures Shaped(Delegate(p, c, offset, Writes(before)))
  {
    var t := p.provider(c.inner, Minus(offset, c.start));
    var ds := before + t.writes;
    WritesAppend(before, t.writes);
    if t.ok && t.done {
      WritesAppend(ds, [CRLF]);
      assert Writes([CRLF]) == [Write(CRLF)];
      assert Delegate(p, c, offset, Writes(before)).ops == Writes(ds + [CRLF]);
    } else {
      assert Delegate(p, c, offset, Writes(before)).ops == Writes(ds);
    }
  }

  lemma {:induction false} ProvideIsShaped<S>(items: seq<Item>, ps: seq<ProviderItem<S>>, boundary: string,
                                              c: Cursor<S>, offset: nat)
    ensures Shaped(Provide(items, ps, boundary, c, offset))
  {
    if offset == 0 && items != [] {
      assert Writes([SerializeItems(items, boundary)]) == [Write(SerializeItems(items, boundary))];
    } else if c.item < |ps| {
      var p := ps[c.item];
      if c.start == 0 {
        var begin := Begin(p, boundary);
        var o := offset + |begin|;
        assert Writes([begin]) == [Write(begin)];
        DelegateIsShaped(p, Cursor(c.item, o, p.initial), o, [begin]);
      } else {
        assert Writes([]) == [];
        DelegateIsShaped(p, c, offset, []);
      }
    } else {
      assert Writes([Finish(boundary)]) == [Write(Finish(boundary))];
    }
  }

  /** Every session of such a provider is a number of writes, closed by done or not at all. */
  lemma {:induction false} SessionShape<C(!new)>(f: Provider<C>, c: C, offset: nat, polls: nat)
    returns (ds: seq<string>, finished: bool)
    requires forall c': C, o: nat :: Shaped(f(c', o))
    ensures Drive(f, c, offset, polls).ops == Writes(ds) + (if finished then [Done([])] else [])
    decreases polls
  {
    ds, finished := [], false;
    if polls > 0 {
      var t := f(c, offset);
      ds, finished := TurnShape(t);
      if t.ok && AvailableAfter(true, t.ops) {
        var more, end := SessionShape(f, t.next, offset + Written(t.ops), polls - 1);
        ShapesJoin(t.ops, ds, finished, more, if end then [Done([])] else []);
        ds, finished := ds + more, end;
      }
    }
  }

  lemma {:induction false} TurnShape<C>(t: Turn<C>) returns (ds: seq<string>, finished: bool)
    requires Shaped(t)
    ensures t.ops == Writes(ds) + if finished then [Done([])] else []
  {
    if ws :| t.ops == Writes(ws) {
      ds, finished := ws, false;
    } else {
      ds :| t.ops == Writes(ds) + [Done([])];
      finished := true;
    }
  }

  lemma {:induction false} ShapesJoin(ops: seq<Op>, ds: seq<string>, finished: bool, more: seq<string>, tail: seq<Op>)
    requires ops == Writes(ds) + (if finished then [Done([])] else []) && AvailableAfter(true, ops)
    ensures ops + (Writes(more) + tail) == Writes(ds + more) + tail
  {
    assert !finished;
    WritesAppend(ds, more);
  }

  /** All or nothing: whatever the items' providers do, the peer takes what arrived for a body exactly when
      every one of them completes and there are calls enough for all. An empty write as the last thing of a
      call, a failing provider or a shutdown before that leaves the peer without a body. */
  lemma {:induction false} UploadIsAllOrNothing<S(!new)>(items: seq<Item>, ps: seq<ProviderItem<S>>, boundary: string,
                                                         inner: S, polls: nat)
    requires AllSendable(Drive(ProviderOf(items, ps, boundary), Cursor(0, 0, inner), 0, polls).ops)
    ensures var ops := Drive(ProviderOf(items, ps, boundary), Cursor(0, 0, inner), 0, polls).ops;
            C.DecodeChunked(Emits(ops)).Some? <==> AllComplete(ps, polls) && polls >= UploadCalls(items, ps, polls)
  {
    DoneExactly(items, ps, boundary, inner, polls);
    TakenExactlyWhenDone(items, ps, boundary, inner, polls);
  }

  /** The peer takes what arrived for a body exactly when the session got as far as done. */
  lemma {:induction false} TakenExactlyWhenDone<S(!new)>(items: seq<Item>, ps: seq<ProviderItem<S>>, boundary: string,
                                                         inner: S, polls: nat)
    requires AllSendable(Drive(ProviderOf(items, ps, boundary), Cursor(0, 0, inner), 0, polls).ops)
    ensures var ops := Drive(ProviderOf(items, ps, boundary), Cursor(0, 0, inner), 0, polls).ops;
            C.DecodeChunked(Emits(ops)).Some? <==> Done([]) in ops
  {
    var f := ProviderOf(items, ps, boundary);
    forall c: Cursor<S>, o: nat ensures Shaped(f(c, o)) {
      ProvideIsShaped(items, ps, boundary, c, o);
    }
    var ds, finished := SessionShape(f, Cursor(0, 0, inner), 0, polls);
    TakenWhenDone(ds, finished);
  }

  lemma {:induction false} TakenWhenDone(ds: seq<string>, finished: bool)
    requires AllSendable(Writes(ds) + if finished then [Done([])] else [])
    ensures var ops := Writes(ds) + if finished then [Done([])] else [];
            && (C.DecodeChunked(Emits(ops)).Some? <==> finished)
            && (Done([]) in ops <==> finished)
  {
    SendableWrites(ds, if finished then [Done([])] else []);
    if finished {
      ReaderUndoesWriter(ds, [], "");
      var ops := Writes(ds) + [Done([])];
      assert Emits(ops) + "" == Emits(ops);
      assert ops[|ds|] == Done([]);
    } else {
      assert Writes(ds) + [] == Writes(ds);
      UnfinishedIsRejected(ds);
    }
  }
}
