/** `get_multipart_content_provider` of httplib.h: a content provider that streams a multipart body, item by
    item, driven by the running offset of the chunked writer. */
module MultipartProvider {
  import opened Bytes
  import opened Multipart
  import opened MultipartRoundTrip
  import opened Chunked
  import opened ChunkedWriter

  const SIZE_T: nat := 0x1_0000_0000_0000_0000

  /** One call of an item's own provider. `done` says that it called `done` on its sink. */
  datatype ItemTurn<S> = ItemTurn(next: S, writes: seq<string>, done: bool, ok: bool)

  type ItemProvider<!S> = (S, nat) -> ItemTurn<S>

  datatype ProviderItem<!S> =
    ProviderItem(name: string, filename: string, contentType: string, provider: ItemProvider<S>, initial: S)

  /** The variables the closure captures: the current item, where its content starts, its provider's state. */
  datatype Cursor<S> = Cursor(item: nat, start: nat, inner: S)

  /** The header of an item does not depend on its content. */
  function Begin<S>(p: ProviderItem<S>, boundary: string): (r: string)
    ensures r != ""
  {
    ItemBegin(Item(p.name, "", p.filename, p.contentType), boundary)
  }

  /** The difference of two `size_t` values. */
  function Minus(a: nat, b: nat): nat {
    if b <= a then a - b else (a - b) % SIZE_T
  }

  /** The part of a call that hands over to the current item's provider, whose content started at
      `c.start`; `before` has been written in the same call. */
  function Delegate<S>(p: ProviderItem<S>, c: Cursor<S>, offset: nat, before: seq<Op>): Turn<Cursor<S>> {
    var t := p.provider(c.inner, Minus(offset, c.start));
    var written := before + Writes(t.writes);
    if !t.ok then Turn(c.(inner := t.next), written, false)
    else if t.done then Turn(Cursor(c.item + 1, 0, t.next), written + [Write(CRLF)], true)
    else Turn(c.(inner := t.next), written, true)
  }

  /** One call of the multipart content provider. */
  function Provide<S>(items: seq<Item>, ps: seq<ProviderItem<S>>, boundary: string, c: Cursor<S>, offset: nat):
    Turn<Cursor<S>>
  {
    if offset == 0 && items != [] then Turn(c, [Write(SerializeItems(items, boundary))], true)
    else if c.item < |ps| then
      var p := ps[c.item];
      if c.start == 0 then
        var begin := Begin(p, boundary);
        Delegate(p, Cursor(c.item, offset + |begin|, p.initial), offset + |begin|, [Write(begin)])
      else Delegate(p, c, offset, [])
    else Turn(c, [Write(Finish(boundary)), Done([])], true)
  }

  /** The closure: its captured variables change from call to call. */
  class MultipartContentProvider<S> {
    const boundary: string
    const items: seq<Item>
    const providerItems: seq<ProviderItem<S>>
    var curItem: nat
    var curStart: nat
    var inner: S

    constructor (boundary: string, items: seq<Item>, providerItems: seq<ProviderItem<S>>, inner: S)
      ensures this.boundary == boundary && this.items == items && this.providerItems == providerItems
      ensures State() == Cursor(0, 0, inner)
    {
      this.boundary, this.items, this.providerItems := boundary, items, providerItems;
      curItem, curStart, this.inner := 0, 0, inner;
    }

    function State(): Cursor<S>
      reads this
    {
      Cursor(curItem, curStart, inner)
    }

    /** One call; `ops` is what it does to the sink. */
    method Call(offset0: nat) returns (ops: seq<Op>, ok: bool)
      modifies this
      ensures Turn(State(), ops, ok) == Provide(items, providerItems, boundary, old(State()), offset0)
    {
      var offset := offset0;
      ops := [];
      if offset == 0 && |items| > 0 {
        var body := SerializeMultipartFormData(items, boundary, false);
        ops := [Write(body)];
        return ops, true;
      } else if curItem < |providerItems| {
        if curStart == 0 {
          var begin := Begin(providerItems[curItem], boundary);
          offset := offset + |begin|;
          curStart := offset;
          inner := providerItems[curItem].initial;
          ops := [Write(begin)];
        }
        var turn := providerItems[curItem].provider(inner, Minus(offset, curStart));
        inner := turn.next;
        ops := ops + Writes(turn.writes);
        if !turn.ok { return ops, false; }
        if turn.done {
          ops := ops + [Write(CRLF)];
          curItem := curItem + 1;
          curStart := 0;
        }
        return ops, true;
      } else {
        return [Write(Finish(boundary)), Done([])], true;
      }
    }
  }

  // --------------------------------------------------------- what items hold

  /** The pieces an item's provider writes, in how many calls, and the state it ends in. */
  datatype Filling<S> = Filling(writes: seq<string>, calls: nat, last: S)

  /** The provider, called with its own running offset, ends with `done` within `fuel` calls, never fails,
      and never ends a call with an empty write without `done`, at which the chunked writer stops. */
  predicate Completes<S>(provider: ItemProvider<S>, s: S, offset: nat, fuel: nat)
    decreases fuel
  {
    fuel > 0
    && var t := provider(s, offset);
       t.ok && (t.done || (KeepsOpen(t.writes) && Completes(provider, t.next, offset + |Concat(t.writes)|, fuel - 1)))
  }

  predicate KeepsOpen(writes: seq<string>) {
    writes == [] || writes[|writes| - 1] != ""
  }

  function Fill<S>(provider: ItemProvider<S>, s: S, offset: nat, fuel: nat): (r: Filling<S>)
    requires Completes(provider, s, offset, fuel)
    ensures 0 < r.calls <= fuel
    decreases fuel
  {
    var t := provider(s, offset);
    if t.done then Filling(t.writes, 1, t.next)
    else
      var rest := Fill(provider, t.next, offset + |Concat(t.writes)|, fuel - 1);
      Filling(t.writes + rest.writes, rest.calls + 1, rest.last)
  }

  ghost predicate AllComplete<S>(ps: seq<ProviderItem<S>>, fuel: nat) {
    forall i :: 0 <= i < |ps| ==> Completes(ps[i].provider, ps[i].initial, 0, fuel)
  }

  function FillOf<S>(p: ProviderItem<S>, fuel: nat): Filling<S>
    requires Completes(p.provider, p.initial, 0, fuel)
  {
    Fill(p.provider, p.initial, 0, fuel)
  }

  /** The item that the provider item stands for. */
  function Materialised<S>(p: ProviderItem<S>, fuel: nat): Item
    requires Completes(p.provider, p.initial, 0, fuel)
  {
    Item(p.name, Concat(FillOf(p, fuel).writes), p.filename, p.contentType)
  }

  /** All writes of the provider items from number `k`, and the closing line. */
  function WritesFrom<S>(ps: seq<ProviderItem<S>>, boundary: string, fuel: nat, k: nat): seq<string>
    requires k <= |ps| && AllComplete(ps, fuel)
    decreases |ps| - k
  {
    if k == |ps| then [Finish(boundary)]
    else [Begin(ps[k], boundary)] + FillOf(ps[k], fuel).writes + [CRLF] + WritesFrom(ps, boundary, fuel, k + 1)
  }

  function CallsFrom<S>(ps: seq<ProviderItem<S>>, fuel: nat, k: nat): nat
    requires k <= |ps| && AllComplete(ps, fuel)
    decreases |ps| - k
  {
    if k == |ps| then 1 else FillOf(ps[k], fuel).calls + CallsFrom(ps, fuel, k + 1)
  }

  // ----------------------------------------------------------- running offset

  lemma {:induction false} WrittenWrites(ds: seq<string>)
    ensures Written(Writes(ds)) == |Concat(ds)|
  {
    if ds != [] {
      assert Writes(ds)[1..] == Writes(ds[1..]);
      WrittenWrites(ds[1..]);
    }
  }

  lemma {:induction false} AvailableWrites(ds: seq<string>)
    ensures AvailableAfter(true, Writes(ds)) == KeepsOpen(ds)
  {}

  /** What an item adds to the session: its remaining pieces, the line end, then whatever follows. */
  ghost predicate Adds(session: Session, ops: seq<Op>, rest: Session) {
    session == Session(ops + rest.ops, rest.end)
  }

  lemma {:induction false} AddsMore(session: Session, a: seq<Op>, b: seq<Op>, mid: Session, rest: Session)
    requires Adds(session, a, mid) && Adds(mid, b, rest)
    ensures Adds(session, a + b, rest)
  {
    Regroup(a, b, rest.ops);
  }

  function ProviderOf<S>(items: seq<Item>, ps: seq<ProviderItem<S>>, boundary: string): Provider<Cursor<S>> {
    (c: Cursor<S>, offset: nat) => Provide(items, ps, boundary, c, offset)
  }

  lemma {:induction false} Step<C>(f: Provider<C>, c: C, offset: nat, polls: nat, ops: seq<Op>, next: C)
    requires polls > 0 && f(c, offset) == Turn(next, ops, true) && AvailableAfter(true, ops)
    ensures Leads(f, c, offset, polls, ops, next, offset + Written(ops), polls - 1)
  {}

  /** A call inside an item hands over to its provider, with the offset in the item. */
  lemma {:induction false} ProvideInside<S>(items: seq<Item>, ps: seq<ProviderItem<S>>, boundary: string, c: Cursor<S>,
                                            offset: nat, t: ItemTurn<S>)
    requires c.item < |ps| && 0 < c.start <= offset && t == ps[c.item].provider(c.inner, offset - c.start) && t.ok
    ensures ProviderOf(items, ps, boundary)(c, offset)
            == if t.done then Turn(Cursor(c.item + 1, 0, t.next), Writes(t.writes) + [Write(CRLF)], true)
               else Turn(c.(inner := t.next), Writes(t.writes), true)
  {
    assert [] + Writes(t.writes) == Writes(t.writes);
  }

  /** A call that lets the item's provider write and stays with the item. */
  lemma {:induction false} ItemGoesOn<S>(items: seq<Item>, ps: seq<ProviderItem<S>>, boundary: string, c: Cursor<S>,
                                         offset: nat, polls: nat, t: ItemTurn<S>)
    requires c.item < |ps| && 0 < c.start <= offset && polls > 0
    requires t == ps[c.item].provider(c.inner, offset - c.start) && t.ok && !t.done && KeepsOpen(t.writes)
    ensures Leads(ProviderOf(items, ps, boundary), c, offset, polls, Writes(t.writes), c.(inner := t.next),
                  offset + |Concat(t.writes)|, polls - 1)
  {
    ProvideInside(items, ps, boundary, c, offset, t);
    AvailableWrites(t.writes);
    WrittenWrites(t.writes);
    Step(ProviderOf(items, ps, boundary), c, offset, polls, Writes(t.writes), c.(inner := t.next));
  }

  lemma {:induction false} ItemEnds<S>(items: seq<Item>, ps: seq<ProviderItem<S>>, boundary: string, c: Cursor<S>,
                                       offset: nat, polls: nat, t: ItemTurn<S>)
    requires c.item < |ps| && 0 < c.start <= offset && polls > 0
    requires t == ps[c.item].provider(c.inner, offset - c.start) && t.ok && t.done
    ensures Leads(ProviderOf(items, ps, boundary), c, offset, polls, Writes(t.writes) + [Write(CRLF)],
                  Cursor(c.item + 1, 0, t.next), offset + |Concat(t.writes)| + |CRLF|, polls - 1)
  {
    ProvideInside(items, ps, boundary, c, offset, t);
    EndedWrites(t.writes);
    Step(ProviderOf(items, ps, boundary), c, offset, polls, Writes(t.writes) + [Write(CRLF)],
         Cursor(c.item + 1, 0, t.next));
  }

  lemma {:induction false} EndedWrites(ds: seq<string>)
    ensures Written(Writes(ds) + [Write(CRLF)]) == |Concat(ds)| + |CRLF|
    ensures AvailableAfter(true, Writes(ds) + [Write(CRLF)])
  {
    WrittenWrites(ds);
    WrittenAppend(Writes(ds), [Write(CRLF)]);
    assert Written([Write(CRLF)]) == |CRLF|;
  }

  lemma {:induction false} PiecesJoin(session: Session, a: seq<string>, b: seq<string>, mid: Session, rest: Session)
    requires Adds(session, Writes(a), mid) && Adds(mid, Writes(b) + [Write(CRLF)], rest)
    ensures Adds(session, Writes(a + b) + [Write(CRLF)], rest)
  {
    WritesAppend(a, b);
    Regroup(Writes(a), Writes(b), [Write(CRLF)]);
    AddsMore(session, Writes(a), Writes(b) + [Write(CRLF)], mid, rest);
  }

  /** From `c` the session does `ops` and is then at `d`. */
  ghost predicate Leads<C>(f: Provider<C>, c: C, offset: nat, polls: nat, ops: seq<Op>, d: C, offset': nat, polls': nat)
  {
    Adds(Drive(f, c, offset, polls), ops, Drive(f, d, offset', polls'))
  }

  lemma {:induction false} LeadsOn<C>(f: Provider<C>, c: C, offset: nat, polls: nat, a: seq<string>, d: C,
                                      offset': nat, polls': nat, b: seq<string>, e: C, offset'': nat, polls'': nat)
    requires Leads(f, c, offset, polls, Writes(a), d, offset', polls')
    requires Leads(f, d, offset', polls', Writes(b) + [Write(CRLF)], e, offset'', polls'')
    ensures Leads(f, c, offset, polls, Writes(a + b) + [Write(CRLF)], e, offset'', polls'')
  {
    PiecesJoin(Drive(f, c, offset, polls), a, b, Drive(f, d, offset', polls'), Drive(f, e, offset'', polls''));
  }

  /** Where an item's calls end: the state of its provider and the running offset. */
  lemma {:induction false} FillUnfold<S>(provider: ItemProvider<S>, s: S, rel: nat, fuel: nat)
    requires Completes(provider, s, rel, fuel)
    ensures var t := provider(s, rel); t.ok && fuel > 0
    ensures var t := provider(s, rel);
            t.done ==> Fill(provider, s, rel, fuel) == Filling(t.writes, 1, t.next)
    ensures var t := provider(s, rel);
            !t.done ==> KeepsOpen(t.writes) && Completes(provider, t.next, rel + |Concat(t.writes)|, fuel - 1)
    ensures var t := provider(s, rel);
            !t.done ==> var rest := Fill(provider, t.next, rel + |Concat(t.writes)|, fuel - 1);
                        Fill(provider, s, rel, fuel) == Filling(t.writes + rest.writes, rest.calls + 1, rest.last)
                        && |Concat(t.writes + rest.writes)| == |Concat(t.writes)| + |Concat(rest.writes)|
  {
    var t := provider(s, rel);
    if !t.done { ConcatAppend(t.writes, Fill(provider, t.next, rel + |Concat(t.writes)|, fuel - 1).writes); }
  }

  /** All calls of an item's provider are the first one and the rest. */
  lemma {:induction false} WholeFill<S>(provider: ItemProvider<S>, s: S, rel: nat, fuel: nat, t: ItemTurn<S>,
                                        later: nat)
    requires Completes(provider, s, rel, fuel) && t == provider(s, rel) && !t.done && later == rel + |Concat(t.writes)|
    ensures t.ok && fuel > 0 && KeepsOpen(t.writes) && Completes(provider, t.next, later, fuel - 1)
    ensures var rest := Fill(provider, t.next, later, fuel - 1);
            Fill(provider, s, rel, fuel) == Filling(t.writes + rest.writes, rest.calls + 1, rest.last)
  {}

  /** From inside an item the session writes what is left of it and gets to the start of the next one. */
  ghost predicate Filled<S>(f: Provider<Cursor<S>>, p: ItemProvider<S>, c: Cursor<S>, offset: nat, fuel: nat,
                            polls: nat)
    requires c.start <= offset && Completes(p, c.inner, offset - c.start, fuel)
    requires polls >= Fill(p, c.inner, offset - c.start, fuel).calls
  {
    var filling := Fill(p, c.inner, offset - c.start, fuel);
    Leads(f, c, offset, polls, Writes(filling.writes) + [Write(CRLF)], Cursor(c.item + 1, 0, filling.last),
          offset + |Concat(filling.writes)| + |CRLF|, polls - filling.calls)
  }

  lemma {:induction false} FilledLeads<S>(f: Provider<Cursor<S>>, p: ItemProvider<S>, c: Cursor<S>, offset: nat,
                                          fuel: nat, polls: nat, filling: Filling<S>)
    requires c.start <= offset && Completes(p, c.inner, offset - c.start, fuel)
    requires filling == Fill(p, c.inner, offset - c.start, fuel) && polls >= filling.calls
    requires Filled(f, p, c, offset, fuel, polls)
    ensures Leads(f, c, offset, polls, Writes(filling.writes) + [Write(CRLF)], Cursor(c.item + 1, 0, filling.last),
                  offset + |Concat(filling.writes)| + |CRLF|, polls - filling.calls)
  {}

  lemma {:induction false} FilledIf<S>(f: Provider<Cursor<S>>, p: ItemProvider<S>, c: Cursor<S>, offset: nat,
                                       fuel: nat, polls: nat, filling: Filling<S>)
    requires c.start <= offset && Completes(p, c.inner, offset - c.start, fuel)
    requires filling == Fill(p, c.inner, offset - c.start, fuel) && polls >= filling.calls
    requires Leads(f, c, offset, polls, Writes(filling.writes) + [Write(CRLF)], Cursor(c.item + 1, 0, filling.last),
                   offset + |Concat(filling.writes)| + |CRLF|, polls - filling.calls)
    ensures Filled(f, p, c, offset, fuel, polls)
  {}

  /** An item's first call and its remaining calls make up all its calls. */
  lemma {:induction false} FillStep<S>(f: Provider<Cursor<S>>, c: Cursor<S>, offset: nat, polls: nat, t: ItemTurn<S>,
                                       d: Cursor<S>, o: nat, rest: Filling<S>, whole: Filling<S>)
    requires d == c.(inner := t.next) && o == offset + |Concat(t.writes)|
    requires whole == Filling(t.writes + rest.writes, rest.calls + 1, rest.last) && polls >= whole.calls
    requires Leads(f, c, offset, polls, Writes(t.writes), d, o, polls - 1)
    requires Leads(f, d, o, polls - 1, Writes(rest.writes) + [Write(CRLF)], Cursor(c.item + 1, 0, rest.last),
                   o + |Concat(rest.writes)| + |CRLF|, polls - 1 - rest.calls)
    ensures Leads(f, c, offset, polls, Writes(whole.writes) + [Write(CRLF)], Cursor(c.item + 1, 0, whole.last),
                  offset + |Concat(whole.writes)| + |CRLF|, polls - whole.calls)
  {
    ConcatAppend(t.writes, rest.writes);
    FillLeads(f, c, offset, polls, t.writes, d, o, rest.writes, Cursor(c.item + 1, 0, rest.last),
              o + |Concat(rest.writes)| + |CRLF|, offset + |Concat(whole.writes)| + |CRLF|,
              polls - 1 - rest.calls, polls - whole.calls);
  }

  lemma {:induction false} FillLeads<C>(f: Provider<C>, c: C, offset: nat, polls: nat, a: seq<string>, d: C, o: nat,
                                        b: seq<string>, e: C, end: nat, end': nat, left: nat, left': nat)
    requires polls > 0 && end == end' && left == left'
    requires Leads(f, c, offset, polls, Writes(a), d, o, polls - 1)
    requires Leads(f, d, o, polls - 1, Writes(b) + [Write(CRLF)], e, end, left)
    ensures Leads(f, c, offset, polls, Writes(a + b) + [Write(CRLF)], e, end', left')
  {
    LeadsOn(f, c, offset, polls, a, d, o, polls - 1, b, e, end, left);
  }

  lemma {:induction false} FilledOn<S>(f: Provider<Cursor<S>>, p: ItemProvider<S>, c: Cursor<S>, offset: nat,
                                       fuel: nat, polls: nat, t: ItemTurn<S>, d: Cursor<S>, o: nat, rest: Filling<S>)
    requires c.start <= offset && Completes(p, c.inner, offset - c.start, fuel)
    requires t == p(c.inner, offset - c.start) && !t.done && d == c.(inner := t.next)
    requires o == offset + |Concat(t.writes)| && fuel > 0 && Completes(p, d.inner, o - d.start, fuel - 1)
    requires rest == Fill(p, d.inner, o - d.start, fuel - 1) && polls > rest.calls
    requires Fill(p, c.inner, offset - c.start, fuel) == Filling(t.writes + rest.writes, rest.calls + 1, rest.last)
    requires Leads(f, c, offset, polls, Writes(t.writes), d, o, polls - 1) && Filled(f, p, d, o, fuel - 1, polls - 1)
    ensures Filled(f, p, c, offset, fuel, polls)
  {
    var whole := Filling(t.writes + rest.writes, rest.calls + 1, rest.last);
    FilledLeads(f, p, d, o, fuel - 1, polls - 1, rest);
    FillStep(f, c, offset, polls, t, d, o, rest, whole);
    FilledIf(f, p, c, offset, fuel, polls, whole);
  }

  /** The call at this point of the item hands over to the item's provider and moves on accordingly. */
  ghost predicate Serves<S>(f: Provider<Cursor<S>>, p: ItemProvider<S>, c: Cursor<S>, offset: nat, polls: nat)
    requires c.start <= offset && polls > 0
  {
    var t := p(c.inner, offset - c.start);
    var o := offset + |Concat(t.writes)|;
    t.ok ==>
      && (t.done ==> Leads(f, c, offset, polls, Writes(t.writes) + [Write(CRLF)],
                           Cursor(c.item + 1, 0, t.next), o + |CRLF|, polls - 1))
      && (!t.done && KeepsOpen(t.writes) ==>
            Leads(f, c, offset, polls, Writes(t.writes), c.(inner := t.next), o, polls - 1))
  }

  ghost predicate ServesFrom<S(!new)>(f: Provider<Cursor<S>>, p: ItemProvider<S>, c: Cursor<S>) {
    forall inner: S, o: nat, n: nat :: c.start <= o && n > 0 ==> Serves(f, p, c.(inner := inner), o, n)
  }

  lemma {:induction false} ServesIf<S>(f: Provider<Cursor<S>>, p: ItemProvider<S>, c: Cursor<S>, offset: nat,
                                       polls: nat, t: ItemTurn<S>)
    requires c.start <= offset && polls > 0 && t == p(c.inner, offset - c.start)
    requires t.done ==> Leads(f, c, offset, polls, Writes(t.writes) + [Write(CRLF)], Cursor(c.item + 1, 0, t.next),
                              offset + |Concat(t.writes)| + |CRLF|, polls - 1)
    requires !t.done ==>
               Leads(f, c, offset, polls, Writes(t.writes), c.(inner := t.next), offset + |Concat(t.writes)|, polls - 1)
    ensures Serves(f, p, c, offset, polls)
  {}

  lemma {:induction false} DelegateServesLast<S>(items: seq<Item>, ps: seq<ProviderItem<S>>, boundary: string,
                                                 c: Cursor<S>, offset: nat, polls: nat)
    requires c.item < |ps| && 0 < c.start <= offset && polls > 0
    requires var t := ps[c.item].provider(c.inner, offset - c.start); t.ok && t.done
    ensures Serves(ProviderOf(items, ps, boundary), ps[c.item].provider, c, offset, polls)
  {
    var t := ps[c.item].provider(c.inner, offset - c.start);
    ItemEnds(items, ps, boundary, c, offset, polls, t);
    ServesIf(ProviderOf(items, ps, boundary), ps[c.item].provider, c, offset, polls, t);
  }

  lemma {:induction false} DelegateServesMore<S>(items: seq<Item>, ps: seq<ProviderItem<S>>, boundary: string,
                                                 c: Cursor<S>, offset: nat, polls: nat)
    requires c.item < |ps| && 0 < c.start <= offset && polls > 0
    requires var t := ps[c.item].provider(c.inner, offset - c.start); t.ok && !t.done && KeepsOpen(t.writes)
    ensures Serves(ProviderOf(items, ps, boundary), ps[c.item].provider, c, offset, polls)
  {
    var t := ps[c.item].provider(c.inner, offset - c.start);
    ItemGoesOn(items, ps, boundary, c, offset, polls, t);
    ServesIf(ProviderOf(items, ps, boundary), ps[c.item].provider, c, offset, polls, t);
  }

  lemma {:induction false} NothingToServe<S>(f: Provider<Cursor<S>>, p: ItemProvider<S>, c: Cursor<S>, offset: nat,
                                             polls: nat)
    requires c.start <= offset && polls > 0
    requires var t := p(c.inner, offset - c.start); !t.ok || (!t.done && !KeepsOpen(t.writes))
    ensures Serves(f, p, c, offset, polls)
  {}

  lemma {:induction false} DelegateServes<S>(items: seq<Item>, ps: seq<ProviderItem<S>>, boundary: string,
                                             c: Cursor<S>, offset: nat, polls: nat)
    requires c.item < |ps| && 0 < c.start <= offset && polls > 0
    ensures Serves(ProviderOf(items, ps, boundary), ps[c.item].provider, c, offset, polls)
  {
    var t := ps[c.item].provider(c.inner, offset - c.start);
    if !t.ok || (!t.done && !KeepsOpen(t.writes)) {
      NothingToServe(ProviderOf(items, ps, boundary), ps[c.item].provider, c, offset, polls);
    } else if t.done {
      DelegateServesLast(items, ps, boundary, c, offset, polls);
    } else {
      DelegateServesMore(items, ps, boundary, c, offset, polls);
    }
  }

  lemma {:induction false} ServesHere<S(!new)>(f: Provider<Cursor<S>>, p: ItemProvider<S>, c: Cursor<S>, offset: nat,
                                               polls: nat)
    requires ServesFrom(f, p, c) && c.start <= offset && polls > 0
    ensures Serves(f, p, c, offset, polls)
  {
    assert c.(inner := c.inner) == c;
  }

  /** An item whose provider is done at once. */
  lemma {:induction false} FillsAtOnce<S>(f: Provider<Cursor<S>>, p: ItemProvider<S>, c: Cursor<S>, offset: nat,
                                          fuel: nat, polls: nat)
    requires c.start <= offset && Completes(p, c.inner, offset - c.start, fuel) && polls > 0
    requires p(c.inner, offset - c.start).done && Serves(f, p, c, offset, polls)
    ensures Filled(f, p, c, offset, fuel, polls)
  {
    FillUnfold(p, c.inner, offset - c.start, fuel);
  }

  lemma {:induction false} FirstCallLeads<S>(f: Provider<Cursor<S>>, p: ItemProvider<S>, c: Cursor<S>, offset: nat,
                                             polls: nat, t: ItemTurn<S>)
    requires c.start <= offset && polls > 0 && Serves(f, p, c, offset, polls)
    requires t == p(c.inner, offset - c.start) && t.ok && !t.done && KeepsOpen(t.writes)
    ensures Leads(f, c, offset, polls, Writes(t.writes), c.(inner := t.next), offset + |Concat(t.writes)|, polls - 1)
  {}

  /** From inside an item to the start of the next one. Its provider sees its own offset all the way. */
  lemma {:induction false} ItemFills<S(!new)>(f: Provider<Cursor<S>>, p: ItemProvider<S>, c: Cursor<S>, offset: nat,
                                              fuel: nat, polls: nat)
    requires ServesFrom(f, p, c)
    requires c.start <= offset && Completes(p, c.inner, offset - c.start, fuel)
    requires polls >= Fill(p, c.inner, offset - c.start, fuel).calls
    ensures Filled(f, p, c, offset, fuel, polls)
    decreases fuel
  {
    ServesHere(f, p, c, offset, polls);
    var t := p(c.inner, offset - c.start);
    if t.done {
      FillsAtOnce(f, p, c, offset, fuel, polls);
    } else {
      var (d, o) := (c.(inner := t.next), offset + |Concat(t.writes)|);
      WholeFill(p, c.inner, offset - c.start, fuel, t, o - d.start);
      FirstCallLeads(f, p, c, offset, polls, t);
      ItemFills(f, p, d, o, fuel - 1, polls - 1);
      FilledOn(f, p, c, offset, fuel, polls, t, d, o, Fill(p, d.inner, o - d.start, fuel - 1));
    }
  }

  /** A call for an item that has not been started is the call after its header, with the header in front. */
  lemma {:induction false} HeaderInFront<S>(p: ProviderItem<S>, c: Cursor<S>, offset: nat, header: Op)
    ensures Delegate(p, c, offset, [header])
            == Delegate(p, c, offset, []).(ops := [header] + Delegate(p, c, offset, []).ops)
  {
    var w := Writes(p.provider(c.inner, Minus(offset, c.start)).writes);
    assert [] + w == w;
    Regroup([header], w, [Write(CRLF)]);
  }

  lemma {:induction false} InFront<C>(f: Provider<C>, c: C, offset: nat, text: string, d: C, polls: nat, u: Turn<C>)
    requires polls > 0 && text != "" && u == f(d, offset + |text|) && u.ok
    requires f(c, offset) == u.(ops := [Write(text)] + u.ops)
    ensures Leads(f, c, offset, polls, [Write(text)], d, offset + |text|, polls)
  {
    WrittenAppend([Write(text)], u.ops);
    assert Written([Write(text)]) == |text|;
    AvailableInFront(Write(text), u.ops);
    if AvailableAfter(true, u.ops) {
      Regroup([Write(text)], u.ops, Drive(f, u.next, offset + |text| + Written(u.ops), polls - 1).ops);
    }
  }

  lemma {:induction false} AvailableInFront(d: Op, ops: seq<Op>)
    requires d.Write? && d.data != ""
    ensures AvailableAfter(true, [d] + ops) == AvailableAfter(true, ops)
  {}

  /** The call for an item that has not been started, and the call behind its header. */
  lemma {:induction false} ProvideBegins<S>(items: seq<Item>, ps: seq<ProviderItem<S>>, boundary: string, c: Cursor<S>,
                                            offset: nat, begin: string, d: Cursor<S>)
    requires c.item < |ps| && c.start == 0 && (offset > 0 || items == []) && begin == Begin(ps[c.item], boundary)
    requires d == Cursor(c.item, offset + |begin|, ps[c.item].initial) && ps[c.item].provider(d.inner, 0).ok
    ensures var u := ProviderOf(items, ps, boundary)(d, offset + |begin|);
            u.ok && ProviderOf(items, ps, boundary)(c, offset) == u.(ops := [Write(begin)] + u.ops)
  {
    HeaderInFront(ps[c.item], d, d.start, Write(begin));
  }

  /** `start == 0` means that the item has not been started: the call first writes its header. */
  lemma {:induction false} ItemBegins<S>(items: seq<Item>, ps: seq<ProviderItem<S>>, boundary: string, c: Cursor<S>,
                                         offset: nat, polls: nat, begin: string, d: Cursor<S>)
    requires c.item < |ps| && c.start == 0 && (offset > 0 || items == []) && polls > 0
    requires begin == Begin(ps[c.item], boundary) && d == Cursor(c.item, offset + |begin|, ps[c.item].initial)
    requires ps[c.item].provider(ps[c.item].initial, 0).ok
    ensures Leads(ProviderOf(items, ps, boundary), c, offset, polls, [Write(begin)], d, offset + |begin|, polls)
  {
    ProvideBegins(items, ps, boundary, c, offset, begin, d);
    InFront(ProviderOf(items, ps, boundary), c, offset, begin, d, polls,
            ProviderOf(items, ps, boundary)(d, offset + |begin|));
  }

  // ------------------------------------------------------------- whole items

  function ItemWrites<S>(p: ProviderItem<S>, boundary: string, fuel: nat): seq<string>
    requires Completes(p.provider, p.initial, 0, fuel)
  {
    [Begin(p, boundary)] + FillOf(p, fuel).writes + [CRLF]
  }

  /** The session streams the whole item `k` from a cursor at its start. */
  ghost predicate Streams<S>(f: Provider<Cursor<S>>, p: ProviderItem<S>, boundary: string, fuel: nat,
                             c: Cursor<S>, offset: nat, polls: nat)
    requires Completes(p.provider, p.initial, 0, fuel) && polls >= FillOf(p, fuel).calls
  {
    var ws := ItemWrites(p, boundary, fuel);
    Leads(f, c, offset, polls, Writes(ws), Cursor(c.item + 1, 0, FillOf(p, fuel).last), offset + |Concat(ws)|,
          polls - FillOf(p, fuel).calls)
  }

  lemma {:induction false} ItemLength(begin: string, ws: seq<string>)
    ensures |Concat([begin] + ws + [CRLF])| == |begin| + |Concat(ws)| + |CRLF|
    ensures Writes([begin] + ws + [CRLF]) == [Write(begin)] + (Writes(ws) + [Write(CRLF)])
  {
    ConcatAppend([begin] + ws, [CRLF]);
    ConcatAppend([begin], ws);
    ConcatOne(begin);
    ConcatOne(CRLF);
  }

  lemma {:induction false} HeaderThenFill<S>(f: Provider<Cursor<S>>, p: ProviderItem<S>, boundary: string, fuel: nat,
                                             c: Cursor<S>, offset: nat, polls: nat)
    requires Completes(p.provider, p.initial, 0, fuel) && polls >= FillOf(p, fuel).calls
    requires var o := offset + |Begin(p, boundary)|;
             Leads(f, c, offset, polls, [Write(Begin(p, boundary))], Cursor(c.item, o, p.initial), o, polls)
    requires var o := offset + |Begin(p, boundary)|;
             var filling := FillOf(p, fuel);
             Leads(f, Cursor(c.item, o, p.initial), o, polls, Writes(filling.writes) + [Write(CRLF)],
                   Cursor(c.item + 1, 0, filling.last), o + |Concat(filling.writes)| + |CRLF|, polls - filling.calls)
    ensures Streams(f, p, boundary, fuel, c, offset, polls)
  {
    var begin := Begin(p, boundary);
    var o := offset + |begin|;
    var filling := FillOf(p, fuel);
    ItemLength(begin, filling.writes);
    AddsMore(Drive(f, c, offset, polls), [Write(begin)], Writes(filling.writes) + [Write(CRLF)],
             Drive(f, Cursor(c.item, o, p.initial), o, polls),
             Drive(f, Cursor(c.item + 1, 0, filling.last), o + |Concat(filling.writes)| + |CRLF|,
                   polls - filling.calls));
  }

  lemma {:induction false} EveryPointServes<S(!new)>(items: seq<Item>, ps: seq<ProviderItem<S>>, boundary: string,
                                                     c: Cursor<S>)
    requires c.item < |ps| && 0 < c.start
    ensures ServesFrom(ProviderOf(items, ps, boundary), ps[c.item].provider, c)
  {
    forall inner: S, o: nat, n: nat | c.start <= o && n > 0
      ensures Serves(ProviderOf(items, ps, boundary), ps[c.item].provider, c.(inner := inner), o, n)
    {
      DelegateServes(items, ps, boundary, c.(inner := inner), o, n);
    }
  }

  lemma {:induction false} BegunItemStreams<S(!new)>(f: Provider<Cursor<S>>, p: ProviderItem<S>, boundary: string,
                                                     fuel: nat, c: Cursor<S>, offset: nat, polls: nat)
    requires Completes(p.provider, p.initial, 0, fuel) && polls >= FillOf(p, fuel).calls
    requires var o := offset + |Begin(p, boundary)|;
             && Leads(f, c, offset, polls, [Write(Begin(p, boundary))], Cursor(c.item, o, p.initial), o, polls)
             && ServesFrom(f, p.provider, Cursor(c.item, o, p.initial))
    ensures Streams(f, p, boundary, fuel, c, offset, polls)
  {
    var o := offset + |Begin(p, boundary)|;
    ItemFills(f, p.provider, Cursor(c.item, o, p.initial), o, fuel, polls);
    HeaderThenFill(f, p, boundary, fuel, c, offset, polls);
  }

  lemma {:induction false} ItemStreams<S(!new)>(items: seq<Item>, ps: seq<ProviderItem<S>>, boundary: string,
                                                fuel: nat, c: Cursor<S>, offset: nat, polls: nat)
    requires c.item < |ps| && c.start == 0 && (offset > 0 || items == [])
    requires Completes(ps[c.item].provider, ps[c.item].initial, 0, fuel)
    requires polls >= FillOf(ps[c.item], fuel).calls
    ensures Streams(ProviderOf(items, ps, boundary), ps[c.item], boundary, fuel, c, offset, polls)
  {
    var p := ps[c.item];
    var o := offset + |Begin(p, boundary)|;
    FillUnfold(p.provider, p.initial, 0, fuel);
    ItemBegins(items, ps, boundary, c, offset, polls, Begin(p, boundary), Cursor(c.item, o, p.initial));
    EveryPointServes(items, ps, boundary, Cursor(c.item, o, p.initial));
    BegunItemStreams(ProviderOf(items, ps, boundary), p, boundary, fuel, c, offset, polls);
  }

  // ----------------------------------------------------------- whole sessions

  lemma {:induction false} FinishEnds<S>(items: seq<Item>, ps: seq<ProviderItem<S>>, boundary: string, c: Cursor<S>,
                                         offset: nat, polls: nat)
    requires c.item == |ps| && (offset > 0 || items == []) && polls > 0
    ensures Drive(ProviderOf(items, ps, boundary), c, offset, polls)
            == Session(Writes([Finish(boundary)]) + [Done([])], NoMoreData)
  {
    assert Writes([Finish(boundary)]) == [Write(Finish(boundary))];
  }

  lemma {:induction false} SessionJoins(session: Session, a: seq<string>, rest: Session, b: seq<string>)
    requires Adds(session, Writes(a), rest) && rest == Session(Writes(b) + [Done([])], NoMoreData)
    ensures session == Session(Writes(a + b) + [Done([])], NoMoreData)
  {
    WritesAppend(a, b);
    Regroup(Writes(a), Writes(b), [Done([])]);
  }

  ghost predicate StreamsEach<S(!new)>(f: Provider<Cursor<S>>, items: seq<Item>, ps: seq<ProviderItem<S>>,
                                 boundary: string, fuel: nat)
    requires AllComplete(ps, fuel)
  {
    && (forall c: Cursor<S>, offset: nat, polls: nat ::
          c.item < |ps| && c.start == 0 && (offset > 0 || items == []) && polls >= FillOf(ps[c.item], fuel).calls
          ==> Streams(f, ps[c.item], boundary, fuel, c, offset, polls))
    && (forall c: Cursor<S>, offset: nat, polls: nat ::
          c.item == |ps| && (offset > 0 || items == []) && polls > 0
          ==> Drive(f, c, offset, polls) == Session(Writes([Finish(boundary)]) + [Done([])], NoMoreData))
  }

  lemma {:induction false} StreamsHere<S(!new)>(f: Provider<Cursor<S>>, items: seq<Item>, ps: seq<ProviderItem<S>>,
                                                boundary: string, fuel: nat, c: Cursor<S>, offset: nat, polls: nat)
    requires AllComplete(ps, fuel) && StreamsEach(f, items, ps, boundary, fuel)
    requires c.item < |ps| && c.start == 0 && (offset > 0 || items == []) && polls >= FillOf(ps[c.item], fuel).calls
    ensures Streams(f, ps[c.item], boundary, fuel, c, offset, polls)
  {}

  lemma {:induction false} WritesUnfold<S>(ps: seq<ProviderItem<S>>, boundary: string, fuel: nat, k: nat)
    requires k < |ps| && AllComplete(ps, fuel)
    ensures WritesFrom(ps, boundary, fuel, k)
         == ItemWrites(ps[k], boundary, fuel) + WritesFrom(ps, boundary, fuel, k + 1)
  {}

  lemma {:induction false} ItemsStream<S(!new)>(f: Provider<Cursor<S>>, items: seq<Item>, ps: seq<ProviderItem<S>>,
                                                boundary: string, fuel: nat, c: Cursor<S>, offset: nat, polls: nat)
    requires AllComplete(ps, fuel) && StreamsEach(f, items, ps, boundary, fuel)
    requires c.item <= |ps| && c.start == 0 && (offset > 0 || items == [])
    requires polls >= CallsFrom(ps, fuel, c.item)
    ensures Drive(f, c, offset, polls)
            == Session(Writes(WritesFrom(ps, boundary, fuel, c.item)) + [Done([])], NoMoreData)
    decreases |ps| - c.item
  {
    if c.item < |ps| {
      var p := ps[c.item];
      var ws := ItemWrites(p, boundary, fuel);
      var d := Cursor(c.item + 1, 0, FillOf(p, fuel).last);
      var rest := WritesFrom(ps, boundary, fuel, c.item + 1);
      ItemsStream(f, items, ps, boundary, fuel, d, offset + |Concat(ws)|, polls - FillOf(p, fuel).calls);
      StreamsHere(f, items, ps, boundary, fuel, c, offset, polls);
      StreamThenRest(f, p, boundary, fuel, c, offset, polls, rest);
      WritesUnfold(ps, boundary, fuel, c.item);
    }
  }

  lemma {:induction false} StreamThenRest<S>(f: Provider<Cursor<S>>, p: ProviderItem<S>, boundary: string, fuel: nat,
                                             c: Cursor<S>, offset: nat, polls: nat, rest: seq<string>)
    requires Completes(p.provider, p.initial, 0, fuel) && polls >= FillOf(p, fuel).calls
    requires Streams(f, p, boundary, fuel, c, offset, polls)
    requires Drive(f, Cursor(c.item + 1, 0, FillOf(p, fuel).last),
                   offset + |Concat(ItemWrites(p, boundary, fuel))|, polls - FillOf(p, fuel).calls)
             == Session(Writes(rest) + [Done([])], NoMoreData)
    ensures Drive(f, c, offset, polls) == Session(Writes(ItemWrites(p, boundary, fuel) + rest) + [Done([])], NoMoreData)
  {
    var ws := ItemWrites(p, boundary, fuel);
    SessionJoins(Drive(f, c, offset, polls), ws,
                 Drive(f, Cursor(c.item + 1, 0, FillOf(p, fuel).last), offset + |Concat(ws)|,
                       polls - FillOf(p, fuel).calls),
                 rest);
  }

  lemma {:induction false} EachStreams<S(!new)>(items: seq<Item>, ps: seq<ProviderItem<S>>, boundary: string, fuel: nat)
    requires AllComplete(ps, fuel)
    ensures StreamsEach(ProviderOf(items, ps, boundary), items, ps, boundary, fuel)
  {
    forall c: Cursor<S>, offset: nat, polls: nat
      | c.item < |ps| && c.start == 0 && (offset > 0 || items == []) && polls >= FillOf(ps[c.item], fuel).calls
      ensures Streams(ProviderOf(items, ps, boundary), ps[c.item], boundary, fuel, c, offset, polls)
    {
      ItemStreams(items, ps, boundary, fuel, c, offset, polls);
    }
    forall c: Cursor<S>, offset: nat, polls: nat | c.item == |ps| && (offset > 0 || items == []) && polls > 0
      ensures Drive(ProviderOf(items, ps, boundary), c, offset, polls)
              == Session(Writes([Finish(boundary)]) + [Done([])], NoMoreData)
    {
      FinishEnds(items, ps, boundary, c, offset, polls);
    }
  }

  /** The pieces of a whole upload. */
  function UploadWrites<S>(items: seq<Item>, ps: seq<ProviderItem<S>>, boundary: string, fuel: nat): seq<string>
    requires AllComplete(ps, fuel)
  {
    (if items == [] then [] else [SerializeItems(items, boundary)]) + WritesFrom(ps, boundary, fuel, 0)
  }

  function UploadCalls<S>(items: seq<Item>, ps: seq<ProviderItem<S>>, fuel: nat): nat
    requires AllComplete(ps, fuel)
  {
    (if items == [] then 0 else 1) + CallsFrom(ps, fuel, 0)
  }

  lemma {:induction false} FixedItemsFirst<S>(items: seq<Item>, ps: seq<ProviderItem<S>>, boundary: string,
                                              c: Cursor<S>, polls: nat)
    requires items != [] && polls > 0
    ensures var text := SerializeItems(items, boundary);
            text != "" && Leads(ProviderOf(items, ps, boundary), c, 0, polls, Writes([text]), c, |text|, polls - 1)
  {
    var text := SerializeItems(items, boundary);
    assert text == ItemBegin(items[0], boundary) + items[0].content + CRLF + SerializeItems(items[1..], boundary);
    assert Writes([text]) == [Write(text)];
    assert Written([Write(text)]) == |text|;
    Step(ProviderOf(items, ps, boundary), c, 0, polls, [Write(text)], c);
  }

  lemma {:induction false} FixedThenStream<S(!new)>(f: Provider<Cursor<S>>, items: seq<Item>, ps: seq<ProviderItem<S>>,
                                                    boundary: string, fuel: nat, c: Cursor<S>, polls: nat, text: string)
    requires AllComplete(ps, fuel) && StreamsEach(f, items, ps, boundary, fuel)
    requires c.item == 0 && c.start == 0 && polls > CallsFrom(ps, fuel, 0) && text != ""
    requires Leads(f, c, 0, polls, Writes([text]), c, |text|, polls - 1)
    ensures Drive(f, c, 0, polls)
            == Session(Writes([text] + WritesFrom(ps, boundary, fuel, 0)) + [Done([])], NoMoreData)
  {
    ItemsStream(f, items, ps, boundary, fuel, c, |text|, polls - 1);
    SessionJoins(Drive(f, c, 0, polls), [text], Drive(f, c, |text|, polls - 1), WritesFrom(ps, boundary, fuel, 0));
  }

  /** The session of the multipart provider, whatever each item's provider does in how many calls. */
  lemma {:induction false} UploadSession<S(!new)>(items: seq<Item>, ps: seq<ProviderItem<S>>, boundary: string,
                                                  fuel: nat, inner: S, polls: nat)
    requires AllComplete(ps, fuel) && polls >= UploadCalls(items, ps, fuel)
    ensures Drive(ProviderOf(items, ps, boundary), Cursor(0, 0, inner), 0, polls)
            == Session(Writes(UploadWrites(items, ps, boundary, fuel)) + [Done([])], NoMoreData)
  {
    var f := ProviderOf(items, ps, boundary);
    var c := Cursor(0, 0, inner);
    EachStreams(items, ps, boundary, fuel);
    if items == [] {
      ItemsStream(f, items, ps, boundary, fuel, c, 0, polls);
      assert [] + WritesFrom(ps, boundary, fuel, 0) == WritesFrom(ps, boundary, fuel, 0);
    } else {
      FixedItemsFirst(items, ps, boundary, c, polls);
      FixedThenStream(f, items, ps, boundary, fuel, c, polls, SerializeItems(items, boundary));
    }
  }

  // ------------------------------------------------------- sessions that say done

  lemma {:induction false} WritesAreNotDone(ds: seq<string>)
    ensures Done([]) !in Writes(ds)
  {}

  /** Done lies behind writes. */
  lemma {:induction false} DoneBehind(session: Session, ops: seq<Op>, rest: Session)
    requires Adds(session, ops, rest) && Done([]) in session.ops && Done([]) !in ops
    ensures Done([]) in rest.ops
  {}

  lemma {:induction false} CompletesAtOnce<S>(provider: ItemProvider<S>, s: S, rel: nat, fuel: nat)
    requires fuel > 0 && provider(s, rel).ok && provider(s, rel).done
    ensures Completes(provider, s, rel, fuel)
  {}

  lemma {:induction false} CompletesLater<S>(provider: ItemProvider<S>, s: S, rel: nat, fuel: nat)
    requires fuel > 0
    requires var t := provider(s, rel);
             t.ok && !t.done && KeepsOpen(t.writes) && Completes(provider, t.next, rel + |Concat(t.writes)|, fuel - 1)
    ensures Completes(provider, s, rel, fuel)
  {}

  /** More fuel changes nothing. */
  lemma {:induction false} MoreFuel<S>(provider: ItemProvider<S>, s: S, rel: nat, fuel: nat, more: nat)
    requires Completes(provider, s, rel, fuel) && fuel <= more
    ensures Completes(provider, s, rel, more)
    ensures Fill(provider, s, rel, more) == Fill(provider, s, rel, fuel)
    decreases fuel
  {
    var t := provider(s, rel);
    FillUnfold(provider, s, rel, fuel);
    if t.done {
      CompletesAtOnce(provider, s, rel, more);
    } else {
      MoreFuel(provider, t.next, rel + |Concat(t.writes)|, fuel - 1, more - 1);
      CompletesLater(provider, s, rel, more);
    }
    FillUnfold(provider, s, rel, more);
  }

  /** A call whose item's provider fails, or leaves an empty write last without being done, is the last one
      and does not say done. */
  lemma {:induction false} StuckSession<S>(items: seq<Item>, ps: seq<ProviderItem<S>>, boundary: string, c: Cursor<S>,
                                           offset: nat, polls: nat)
    requires c.item < |ps| && 0 < c.start <= offset
    requires polls > 0 ==>
               var t := ps[c.item].provider(c.inner, offset - c.start); !t.ok || (!t.done && !KeepsOpen(t.writes))
    ensures Done([]) !in Drive(ProviderOf(items, ps, boundary), c, offset, polls).ops
  {
    if polls > 0 {
      var t := ps[c.item].provider(c.inner, offset - c.start);
      assert [] + Writes(t.writes) == Writes(t.writes);
      AvailableWrites(t.writes);
      WritesAreNotDone(t.writes);
    }
  }

  /** The session from this point does not say done when the item's provider gets stuck in its next call. */
  ghost predicate Stops<S>(f: Provider<Cursor<S>>, p: ItemProvider<S>, c: Cursor<S>, offset: nat, polls: nat)
    requires c.start <= offset
  {
    (polls > 0 ==> var t := p(c.inner, offset - c.start); !t.ok || (!t.done && !KeepsOpen(t.writes)))
    ==> Done([]) !in Drive(f, c, offset, polls).ops
  }

  ghost predicate StopsFrom<S(!new)>(f: Provider<Cursor<S>>, p: ItemProvider<S>, c: Cursor<S>) {
    forall inner: S, o: nat, n: nat :: c.start <= o ==> Stops(f, p, c.(inner := inner), o, n)
  }

  lemma {:induction false} PointStops<S>(items: seq<Item>, ps: seq<ProviderItem<S>>, boundary: string, c: Cursor<S>,
                                         offset: nat, polls: nat)
    requires c.item < |ps| && 0 < c.start <= offset
    ensures Stops(ProviderOf(items, ps, boundary), ps[c.item].provider, c, offset, polls)
  {
    var t := ps[c.item].provider(c.inner, offset - c.start);
    if polls == 0 || !t.ok || (!t.done && !KeepsOpen(t.writes)) {
      StuckSession(items, ps, boundary, c, offset, polls);
    }
  }

  lemma {:induction false} EveryPointStops<S(!new)>(items: seq<Item>, ps: seq<ProviderItem<S>>, boundary: string,
                                                    c: Cursor<S>)
    requires c.item < |ps| && 0 < c.start
    ensures StopsFrom(ProviderOf(items, ps, boundary), ps[c.item].provider, c)
  {
    forall inner: S, o: nat, n: nat | c.start <= o
      ensures Stops(ProviderOf(items, ps, boundary), ps[c.item].provider, c.(inner := inner), o, n)
    {
      PointStops(items, ps, boundary, c.(inner := inner), o, n);
    }
  }

  lemma {:induction false} StopsHere<S(!new)>(f: Provider<Cursor<S>>, p: ItemProvider<S>, c: Cursor<S>, offset: nat,
                                              polls: nat)
    requires StopsFrom(f, p, c) && c.start <= offset
    ensures Stops(f, p, c, offset, polls)
  {
    assert c.(inner := c.inner) == c;
  }

  /** The item's provider completes, and the session says done at offset `o` or later. */
  ghost predicate DonePast<S>(f: Provider<Cursor<S>>, p: ItemProvider<S>, c: Cursor<S>, offset: nat, polls: nat, o: nat)
    requires c.start <= offset
  {
    && o > 0 && Completes(p, c.inner, offset - c.start, polls)
    && var filling := Fill(p, c.inner, offset - c.start, polls);
       Done([]) in Drive(f, Cursor(c.item + 1, 0, filling.last), o, polls - filling.calls).ops
  }

  lemma {:induction false} DonePastLast<S>(f: Provider<Cursor<S>>, p: ItemProvider<S>, c: Cursor<S>, offset: nat,
                                           polls: nat, t: ItemTurn<S>, o: nat)
    requires c.start <= offset && polls > 0 && t == p(c.inner, offset - c.start) && t.ok && t.done
    requires Serves(f, p, c, offset, polls) && o == offset + |Concat(t.writes)| + |CRLF|
    requires Done([]) in Drive(f, c, offset, polls).ops
    ensures DonePast(f, p, c, offset, polls, o)
  {
    CompletesAtOnce(p, c.inner, offset - c.start, polls);
    FillUnfold(p, c.inner, offset - c.start, polls);
    WritesAreNotDone(t.writes);
    DoneBehind(Drive(f, c, offset, polls), Writes(t.writes) + [Write(CRLF)],
               Drive(f, Cursor(c.item + 1, 0, t.next), o, polls - 1));
  }

  lemma {:induction false} DoneAfterCall<S>(f: Provider<Cursor<S>>, p: ItemProvider<S>, c: Cursor<S>, offset: nat,
                                            polls: nat, t: ItemTurn<S>)
    requires c.start <= offset && polls > 0 && Serves(f, p, c, offset, polls)
    requires t == p(c.inner, offset - c.start) && t.ok && !t.done && KeepsOpen(t.writes)
    requires Done([]) in Drive(f, c, offset, polls).ops
    ensures Done([]) in Drive(f, c.(inner := t.next), offset + |Concat(t.writes)|, polls - 1).ops
  {
    FirstCallLeads(f, p, c, offset, polls, t);
    WritesAreNotDone(t.writes);
    DoneBehind(Drive(f, c, offset, polls), Writes(t.writes),
               Drive(f, c.(inner := t.next), offset + |Concat(t.writes)|, polls - 1));
  }

  lemma {:induction false} DonePastStep<S>(f: Provider<Cursor<S>>, p: ItemProvider<S>, c: Cursor<S>, offset: nat,
                                           polls: nat, t: ItemTurn<S>, next: nat, o: nat)
    requires c.start <= offset && polls > 0 && next == offset + |Concat(t.writes)|
    requires t == p(c.inner, offset - c.start) && t.ok && !t.done && KeepsOpen(t.writes)
    requires DonePast(f, p, c.(inner := t.next), next, polls - 1, o)
    ensures DonePast(f, p, c, offset, polls, o)
  {
    var rel := offset - c.start;
    assert next - c.start == rel + |Concat(t.writes)|;
    CompletesLater(p, c.inner, rel, polls);
    FillUnfold(p, c.inner, rel, polls);
    var rest := Fill(p, t.next, next - c.start, polls - 1);
    assert Fill(p, c.inner, rel, polls).calls == rest.calls + 1;
    assert Fill(p, c.inner, rel, polls).last == rest.last;
  }

  /** A session that says done, from inside an item: the item's provider completes, and done comes later. */
  lemma {:induction false} DonePastItem<S(!new)>(f: Provider<Cursor<S>>, p: ItemProvider<S>, c: Cursor<S>, offset: nat,
                                                 polls: nat) returns (o: nat)
    requires ServesFrom(f, p, c) && StopsFrom(f, p, c) && c.start <= offset
    requires Done([]) in Drive(f, c, offset, polls).ops
    ensures DonePast(f, p, c, offset, polls, o)
    decreases polls
  {
    StopsHere(f, p, c, offset, polls);
    ServesHere(f, p, c, offset, polls);
    var t := p(c.inner, offset - c.start);
    if t.done {
      o := offset + |Concat(t.writes)| + |CRLF|;
      DonePastLast(f, p, c, offset, polls, t, o);
    } else {
      DoneAfterCall(f, p, c, offset, polls, t);
      o := DonePastItem(f, p, c.(inner := t.next), offset + |Concat(t.writes)|, polls - 1);
      DonePastStep(f, p, c, offset, polls, t, offset + |Concat(t.writes)|, o);
    }
  }

  lemma {:induction false} DoneBehindBegin<S>(f: Provider<Cursor<S>>, c: Cursor<S>, offset: nat, polls: nat,
                                              begin: string, d: Cursor<S>)
    requires Leads(f, c, offset, polls, [Write(begin)], d, offset + |begin|, polls)
    requires Done([]) in Drive(f, c, offset, polls).ops
    ensures Done([]) in Drive(f, d, offset + |begin|, polls).ops
  {
    DoneBehind(Drive(f, c, offset, polls), [Write(begin)], Drive(f, d, offset + |begin|, polls));
  }

  lemma {:induction false} RefusedAtOnce<S>(items: seq<Item>, ps: seq<ProviderItem<S>>, boundary: string, c: Cursor<S>,
                                            offset: nat, polls: nat)
    requires c.item < |ps| && c.start == 0 && (offset > 0 || items == [])
    requires !ps[c.item].provider(ps[c.item].initial, 0).ok
    ensures Done([]) !in Drive(ProviderOf(items, ps, boundary), c, offset, polls).ops
  {
    WritesAreNotDone(ps[c.item].provider(ps[c.item].initial, 0).writes);
  }

  /** An item that is not started: its provider is asked in the same call. */
  lemma {:induction false} DoneBehindHeader<S>(items: seq<Item>, ps: seq<ProviderItem<S>>, boundary: string,
                                               c: Cursor<S>, offset: nat, polls: nat, begin: string, d: Cursor<S>)
    requires c.item < |ps| && c.start == 0 && (offset > 0 || items == []) && polls > 0
    requires begin == Begin(ps[c.item], boundary) && d == Cursor(c.item, offset + |begin|, ps[c.item].initial)
    requires ps[c.item].provider(ps[c.item].initial, 0).ok
    requires Done([]) in Drive(ProviderOf(items, ps, boundary), c, offset, polls).ops
    ensures Done([]) in Drive(ProviderOf(items, ps, boundary), d, offset + |begin|, polls).ops
  {
    ItemBegins(items, ps, boundary, c, offset, polls, begin, d);
    DoneBehindBegin(ProviderOf(items, ps, boundary), c, offset, polls, begin, d);
  }

  /** The provider of item `k` completes, and the session says done at offset `o` or later. */
  ghost predicate PastWhole<S>(f: Provider<Cursor<S>>, p: ProviderItem<S>, k: nat, polls: nat, o: nat) {
    && o > 0 && Completes(p.provider, p.initial, 0, polls)
    && Done([]) in Drive(f, Cursor(k + 1, 0, FillOf(p, polls).last), o, polls - FillOf(p, polls).calls).ops
  }

  lemma {:induction false} BegunIsWhole<S>(f: Provider<Cursor<S>>, p: ProviderItem<S>, k: nat, start: nat, polls: nat,
                                           o: nat)
    requires DonePast(f, p.provider, Cursor(k, start, p.initial), start, polls, o)
    ensures PastWhole(f, p, k, polls, o)
  {}

  lemma {:induction false} BegunPastWhole<S(!new)>(items: seq<Item>, ps: seq<ProviderItem<S>>, boundary: string, k: nat,
                                                   start: nat, polls: nat) returns (o: nat)
    requires k < |ps| && start > 0
    requires Done([]) in Drive(ProviderOf(items, ps, boundary), Cursor(k, start, ps[k].initial), start, polls).ops
    ensures PastWhole(ProviderOf(items, ps, boundary), ps[k], k, polls, o)
  {
    var d := Cursor(k, start, ps[k].initial);
    EveryPointServes(items, ps, boundary, d);
    EveryPointStops(items, ps, boundary, d);
    o := DonePastItem(ProviderOf(items, ps, boundary), ps[k].provider, d, start, polls);
    BegunIsWhole(ProviderOf(items, ps, boundary), ps[k], k, start, polls, o);
  }

  ghost predicate PastEach<S(!new)>(f: Provider<Cursor<S>>, items: seq<Item>, ps: seq<ProviderItem<S>>) {
    forall c: Cursor<S>, offset: nat, polls: nat ::
      c.item < |ps| && c.start == 0 && (offset > 0 || items == []) && Done([]) in Drive(f, c, offset, polls).ops
      ==> exists o: nat :: PastWhole(f, ps[c.item], c.item, polls, o)
  }

  /** A session that says done, from the start of an item: done comes at the start of a later one. */
  lemma {:induction false} ItemIsPast<S(!new)>(items: seq<Item>, ps: seq<ProviderItem<S>>, boundary: string,
                                               c: Cursor<S>, offset: nat, polls: nat) returns (o: nat)
    requires c.item < |ps| && c.start == 0 && (offset > 0 || items == [])
    requires Done([]) in Drive(ProviderOf(items, ps, boundary), c, offset, polls).ops
    ensures PastWhole(ProviderOf(items, ps, boundary), ps[c.item], c.item, polls, o)
  {
    var begin := Begin(ps[c.item], boundary);
    var start := offset + |begin|;
    DoneMeansBegun(items, ps, boundary, c, offset, polls);
    DoneBehindHeader(items, ps, boundary, c, offset, polls, begin, Cursor(c.item, start, ps[c.item].initial));
    o := BegunPastWhole(items, ps, boundary, c.item, start, polls);
  }

  lemma {:induction false} DoneMeansBegun<S>(items: seq<Item>, ps: seq<ProviderItem<S>>, boundary: string,
                                             c: Cursor<S>, offset: nat, polls: nat)
    requires c.item < |ps| && c.start == 0 && (offset > 0 || items == [])
    requires Done([]) in Drive(ProviderOf(items, ps, boundary), c, offset, polls).ops
    ensures polls > 0 && ps[c.item].provider(ps[c.item].initial, 0).ok
  {
    if !ps[c.item].provider(ps[c.item].initial, 0).ok { RefusedAtOnce(items, ps, boundary, c, offset, polls); }
  }

  lemma {:induction false} EachIsPast<S(!new)>(items: seq<Item>, ps: seq<ProviderItem<S>>, boundary: string)
    ensures PastEach(ProviderOf(items, ps, boundary), items, ps)
  {
    forall c: Cursor<S>, offset: nat, polls: nat
      | c.item < |ps| && c.start == 0 && (offset > 0 || items == [])
        && Done([]) in Drive(ProviderOf(items, ps, boundary), c, offset, polls).ops
      ensures exists o: nat :: PastWhole(ProviderOf(items, ps, boundary), ps[c.item], c.item, polls, o)
    {
      var o := ItemIsPast(items, ps, boundary, c, offset, polls);
    }
  }

  /** The provider items from number `k` complete within `polls` calls. */
  ghost predicate CompleteFrom<S>(ps: seq<ProviderItem<S>>, k: nat, polls: nat)
    decreases |ps| - k
  {
    k <= |ps| && polls > 0 &&
    (k < |ps| ==> Completes(ps[k].provider, ps[k].initial, 0, polls)
                  && CompleteFrom(ps, k + 1, polls - FillOf(ps[k], polls).calls))
  }

  lemma {:induction false} CompleteCons<S>(ps: seq<ProviderItem<S>>, k: nat, polls: nat)
    requires k < |ps| && Completes(ps[k].provider, ps[k].initial, 0, polls)
    requires CompleteFrom(ps, k + 1, polls - FillOf(ps[k], polls).calls)
    ensures CompleteFrom(ps, k, polls)
  {}

  lemma {:induction false} DoneMeansComplete<S(!new)>(f: Provider<Cursor<S>>, items: seq<Item>,
                                                      ps: seq<ProviderItem<S>>, c: Cursor<S>, offset: nat, polls: nat)
    requires PastEach(f, items, ps)
    requires c.item <= |ps| && c.start == 0 && (offset > 0 || items == [])
    requires Done([]) in Drive(f, c, offset, polls).ops
    ensures CompleteFrom(ps, c.item, polls)
    decreases |ps| - c.item
  {
    if c.item < |ps| {
      var o: nat :| PastWhole(f, ps[c.item], c.item, polls, o);
      var filling := FillOf(ps[c.item], polls);
      DoneMeansComplete(f, items, ps, Cursor(c.item + 1, 0, filling.last), o, polls - filling.calls);
      CompleteCons(ps, c.item, polls);
    }
  }

  lemma {:induction false} CompleteInAll<S>(ps: seq<ProviderItem<S>>, k: nat, polls: nat, fuel: nat)
    requires CompleteFrom(ps, k, polls) && polls <= fuel
    ensures forall i :: k <= i < |ps| ==> Completes(ps[i].provider, ps[i].initial, 0, fuel)
    decreases |ps| - k
  {
    if k < |ps| {
      MoreFuel(ps[k].provider, ps[k].initial, 0, polls, fuel);
      CompleteInAll(ps, k + 1, polls - FillOf(ps[k], polls).calls, fuel);
    }
  }

  lemma {:induction false} CallsSuffice<S>(ps: seq<ProviderItem<S>>, k: nat, polls: nat, fuel: nat)
    requires CompleteFrom(ps, k, polls) && polls <= fuel && AllComplete(ps, fuel)
    ensures CallsFrom(ps, fuel, k) <= polls
    decreases |ps| - k
  {
    if k < |ps| {
      MoreFuel(ps[k].provider, ps[k].initial, 0, polls, fuel);
      CallsSuffice(ps, k + 1, polls - FillOf(ps[k], polls).calls, fuel);
    }
  }

  lemma {:induction false} FixedItemsAreNotDone<S>(items: seq<Item>, ps: seq<ProviderItem<S>>, boundary: string,
                                                   c: Cursor<S>, polls: nat)
    requires items != [] && Done([]) in Drive(ProviderOf(items, ps, boundary), c, 0, polls).ops
    ensures polls > 0 && SerializeItems(items, boundary) != ""
    ensures Done([]) in Drive(ProviderOf(items, ps, boundary), c, |SerializeItems(items, boundary)|, polls - 1).ops
  {
    var (f, text) := (ProviderOf(items, ps, boundary), SerializeItems(items, boundary));
    FixedItemsFirst(items, ps, boundary, c, polls);
    WritesAreNotDone([text]);
    DoneBehind(Drive(f, c, 0, polls), Writes([text]), Drive(f, c, |text|, polls - 1));
  }

  lemma {:induction false} EnoughIfDone<S(!new)>(items: seq<Item>, ps: seq<ProviderItem<S>>, boundary: string, inner: S,
                                                 polls: nat)
    requires Done([]) in Drive(ProviderOf(items, ps, boundary), Cursor(0, 0, inner), 0, polls).ops
    ensures AllComplete(ps, polls) && polls >= UploadCalls(items, ps, polls)
  {
    var (offset, left) := (0, polls);
    if items != [] {
      FixedItemsAreNotDone(items, ps, boundary, Cursor(0, 0, inner), polls);
      offset, left := |SerializeItems(items, boundary)|, polls - 1;
    }
    EachIsPast(items, ps, boundary);
    DoneMeansComplete(ProviderOf(items, ps, boundary), items, ps, Cursor(0, 0, inner), offset, left);
    CompleteInAll(ps, 0, left, polls);
    CallsSuffice(ps, 0, left, polls);
  }

  /** A session says done exactly when all providers complete and there are calls enough for all of them. */
  lemma {:induction false} DoneExactly<S(!new)>(items: seq<Item>, ps: seq<ProviderItem<S>>, boundary: string, inner: S,
                                                polls: nat)
    ensures Done([]) in Drive(ProviderOf(items, ps, boundary), Cursor(0, 0, inner), 0, polls).ops
            <==> AllComplete(ps, polls) && polls >= UploadCalls(items, ps, polls)
  {
    var ops := Drive(ProviderOf(items, ps, boundary), Cursor(0, 0, inner), 0, polls).ops;
    if Done([]) in ops { EnoughIfDone(items, ps, boundary, inner, polls); }
    if AllComplete(ps, polls) && polls >= UploadCalls(items, ps, polls) {
      UploadSession(items, ps, boundary, polls, inner, polls);
      assert ops[|ops| - 1] == Done([]);
    }
  }

  // -------------------------------------------------------------- same bytes

  /** The provider items from number `k` as plain items. */
  function MaterialisedFrom<S>(ps: seq<ProviderItem<S>>, fuel: nat, k: nat): (r: seq<Item>)
    requires k <= |ps| && AllComplete(ps, fuel)
    ensures |r| == |ps| - k
    decreases |ps| - k
  {
    if k == |ps| then [] else [Materialised(ps[k], fuel)] + MaterialisedFrom(ps, fuel, k + 1)
  }

  lemma {:induction false} ItemBytes<S>(p: ProviderItem<S>, boundary: string, fuel: nat)
    requires Completes(p.provider, p.initial, 0, fuel)
    ensures var item := Materialised(p, fuel);
            Concat(ItemWrites(p, boundary, fuel)) == ItemBegin(item, boundary) + item.content + CRLF
  {
    var begin, ws := Begin(p, boundary), FillOf(p, fuel).writes;
    ConcatAppend([begin] + ws, [CRLF]);
    ConcatAppend([begin], ws);
    ConcatOne(begin);
    ConcatOne(CRLF);
    BeginIgnoresContent(Materialised(p, fuel), Item(p.name, "", p.filename, p.contentType), boundary);
  }

  lemma {:induction false} BeginIgnoresContent(a: Item, b: Item, boundary: string)
    requires a.name == b.name && a.filename == b.filename && a.contentType == b.contentType
    ensures ItemBegin(a, boundary) == ItemBegin(b, boundary)
  {}

  lemma {:induction false} WritesFromBytes<S>(ps: seq<ProviderItem<S>>, boundary: string, fuel: nat, k: nat)
    requires k <= |ps| && AllComplete(ps, fuel)
    ensures Concat(WritesFrom(ps, boundary, fuel, k)) == Serialize(MaterialisedFrom(ps, fuel, k), boundary)
    decreases |ps| - k
  {
    if k == |ps| {
      ConcatOne(Finish(boundary));
      assert "" + Finish(boundary) == Finish(boundary);
    } else {
      var ws, rest := ItemWrites(ps[k], boundary, fuel), MaterialisedFrom(ps, fuel, k + 1);
      WritesFromBytes(ps, boundary, fuel, k + 1);
      ConcatAppend(ws, WritesFrom(ps, boundary, fuel, k + 1));
      ItemBytes(ps[k], boundary, fuel);
      SerializeItemsCons(Materialised(ps[k], fuel), rest, boundary);
      Regroup(Concat(ws), SerializeItems(rest, boundary), Finish(boundary));
    }
  }

  /** Streaming gives the bytes of the one-shot serializer on the items and the materialised items. */
  lemma {:induction false} UploadBytes<S>(items: seq<Item>, ps: seq<ProviderItem<S>>, boundary: string, fuel: nat)
    requires AllComplete(ps, fuel)
    ensures Concat(UploadWrites(items, ps, boundary, fuel))
            == Serialize(items + MaterialisedFrom(ps, fuel, 0), boundary)
  {
    var first := if items == [] then [] else [SerializeItems(items, boundary)];
    var more := MaterialisedFrom(ps, fuel, 0);
    ConcatAppend(first, WritesFrom(ps, boundary, fuel, 0));
    WritesFromBytes(ps, boundary, fuel, 0);
    if items != [] { ConcatOne(SerializeItems(items, boundary)); }
    SerializeItemsAppend(items, more, boundary);
    Regroup(SerializeItems(items, boundary), SerializeItems(more, boundary), Finish(boundary));
  }
}
