/** How the bytes of a body are cut into calls of `parse` does not matter.

    A receiver sees header callbacks and, after each, the concatenation of its content callbacks. The
    theorem `PieceIndependence` says that any cutting gives the same report as one call with the whole
    body, as long as the opening delimiter line arrives whole, every header line is shorter than the limit
    and the epilogue is harmless. `EpilogueExactly` shows that the last condition is just what is needed:
    an epilogue that is not harmless is spoilt by some cutting. `AnyCutting` says what becomes of a body
    whose opening delimiter line is cut. */
module MultipartPieces {
  import opened Bytes
  import opened Multipart

  datatype Part = Part(file: FileInfo, content: string)

  /** The parts a history of callbacks delivers: contents are concatenated. */
  function Parts(log: seq<Event>): seq<Part> {
    if log == [] then [] else AddEvent(Parts(log[..|log| - 1]), log[|log| - 1])
  }

  function AddEvent(parts: seq<Part>, e: Event): seq<Part> {
    match e
    case Header(file) => parts + [Part(file, "")]
    case Content(data) =>
      if parts == [] then []
      else parts[..|parts| - 1] + [Part(parts[|parts| - 1].file, parts[|parts| - 1].content + data)]
  }

  lemma {:induction false} PartsSnoc(log: seq<Event>, e: Event)
    ensures Parts(log + [e]) == AddEvent(Parts(log), e)
  {
    assert (log + [e])[..|log|] == log;
  }

  lemma {:induction false} AddContentTwice(parts: seq<Part>, a: string, b: string)
    ensures AddEvent(AddEvent(parts, Content(a)), Content(b)) == AddEvent(parts, Content(a + b))
  {
    if parts != [] {
      var front, last := parts[..|parts| - 1], parts[|parts| - 1];
      assert AddEvent(parts, Content(a))[..|parts| - 1] == front;
      assert last.content + a + b == last.content + (a + b);
    }
  }

  /** Two consecutive content callbacks deliver what one with both data delivers. */
  lemma {:induction false} ContentJoins(log: seq<Event>, a: string, b: string)
    ensures Parts(log + [Content(a)] + [Content(b)]) == Parts(log + [Content(a + b)])
  {
    PartsSnoc(log + [Content(a)], Content(b));
    PartsSnoc(log, Content(a));
    PartsSnoc(log, Content(a + b));
    AddContentTwice(Parts(log), a, b);
  }

  ghost predicate Accepts(accept: Receiver) {
    forall log :: accept(log)
  }

  /** What an observer computes from the callbacks, when it cannot tell consecutive content callbacks from
      one with the joined data. */
  ghost predicate CutBlind<T>(view: seq<Event> -> T) {
    && (forall l, m, e {:trigger view(l + [e]), view(m + [e])} :: view(l) == view(m) ==> view(l + [e]) == view(m + [e]))
    && (forall l, a, b {:trigger view(l + [Content(a)] + [Content(b)])} ::
          view(l + [Content(a)] + [Content(b)]) == view(l + [Content(a + b)]))
  }

  lemma {:induction false} PartsIsCutBlind()
    ensures CutBlind(Parts)
  {
    forall l, m, e | Parts(l) == Parts(m) ensures Parts(l + [e]) == Parts(m + [e]) {
      PartsSnoc(l, e);
      PartsSnoc(m, e);
    }
    forall l, a, b ensures Parts(l + [Content(a)] + [Content(b)]) == Parts(l + [Content(a + b)]) {
      ContentJoins(l, a, b);
    }
  }

  /** Equal but for the way contents were cut. */
  ghost predicate SameReport<T>(view: seq<Event> -> T, p: PState, q: PState) {
    Alike(p, q) && p.window == q.window && view(p.log) == view(q.log)
  }

  /** Equal but for window and history. */
  predicate Alike(p: PState, q: PState) {
    p.boundary == q.boundary && p.phase == q.phase && p.valid == q.valid && p.file == q.file
  }

  /** What the caller can observe at the end: callbacks, validity and the last return value. */
  ghost predicate SameVerdict<T>(view: seq<Event> -> T, a: Outcome, b: Outcome) {
    a.ok == b.ok && a.p.valid == b.p.valid && view(a.p.log) == view(b.p.log)
  }

  function Append(p: PState, data: string): PState {
    p.(window := p.window + data)
  }

  lemma {:induction false} ViewExtend<T>(view: seq<Event> -> T, l: seq<Event>, m: seq<Event>, delta: seq<Event>)
    requires CutBlind(view) && view(l) == view(m) && |delta| <= 1
    ensures view(l + delta) == view(m + delta)
  {
    if delta == [] {
      assert l + delta == l && m + delta == m;
    } else {
      assert delta == [delta[0]];
    }
  }

  lemma {:induction false} ViewJoin<T>(view: seq<Event> -> T, l: seq<Event>, a: string, b: string)
    requires CutBlind(view)
    ensures view(l + [Content(a)] + [Content(b)]) == view(l + [Content(a + b)])
  {}

  ghost predicate SameStep<T>(view: seq<Event> -> T, r: Step, s: Step) {
    SameReport(view, r.p, s.p) && StepWithLog(r, []) == StepWithLog(s, [])
  }

  function StepWithLog(r: Step, log: seq<Event>): Step {
    match r
    case Return(p, ok) => Return(p.(log := log), ok)
    case Continue(p, inLines) => Continue(p.(log := log), inLines)
  }

  /** The state a round leads to. */
  function Target(r: Step): PState {
    match r
    case Return(q, _) => q
    case Continue(q, _) => q
  }

  /** An accepted round adds at most one callback, and neither it nor the rest of the step depends on the
      callbacks made before. */
  lemma {:induction false} BodyEmits(p: PState, log: seq<Event>, d: string, accept: Receiver)
    returns (delta: seq<Event>)
    requires Accepts(accept) && d != ""
    ensures |delta| <= 1 && RoundBodyUpTo(p, d, accept).p.log == p.log + delta
    ensures RoundBodyUpTo(p.(log := log), d, accept) == StepWithLog(RoundBodyUpTo(p, d, accept), log + delta)
  {
    var pos := Find(p.window, d);
    if |d| > |p.window| || (pos == |p.window| && |p.window| == |d|) {
      delta := [];
    } else if pos < |p.window| {
      delta := [Content(p.window[..pos])];
    } else {
      delta := [Content(p.window[..|p.window| - |d|])];
    }
  }

  lemma {:induction false} ParsedLineEmits(p: PState, log: seq<Event>, parsed: (FileInfo, bool), accept: Receiver)
    returns (delta: seq<Event>)
    requires Accepts(accept)
    ensures |delta| <= 1 && RoundParsedLine(p, parsed, accept).p.log == p.log + delta
    ensures RoundParsedLine(p.(log := log), parsed, accept)
         == StepWithLog(RoundParsedLine(p, parsed, accept), log + delta)
  {
    delta := if Find(p.window, CRLF) == 0 < |p.window| then [Header(p.file)] else [];
  }

  lemma {:induction false} RoundEmits(p: PState, log: seq<Event>, inLines: bool, accept: Receiver)
    returns (delta: seq<Event>)
    requires Accepts(accept) && p.window != ""
    ensures |delta| <= 1 && Round(p, inLines, accept).p.log == p.log + delta
    ensures Round(p.(log := log), inLines, accept) == StepWithLog(Round(p, inLines, accept), log + delta)
  {
    delta := [];
    if p.phase == Body {
      delta := BodyEmits(p, log, CrlfDashBoundary(p.boundary), accept);
    } else if p.phase == Headers && inLines {
      delta := ParsedLineEmits(p, log, HeaderLine(p.file, p.window[..Find(p.window, CRLF)]), accept);
    }
  }

  /** A round cannot tell two states with the same report apart. */
  lemma {:induction false} RoundCongruence<T>(view: seq<Event> -> T, p: PState, q: PState, inLines: bool,
                                              accept: Receiver)
    requires CutBlind(view) && Accepts(accept) && SameReport(view, p, q) && p.window != ""
    ensures SameStep(view, Round(p, inLines, accept), Round(q, inLines, accept))
  {
    var delta := RoundEmits(p, q.log, inLines, accept);
    assert q == p.(log := q.log);
    ViewExtend(view, p.log, q.log, delta);
  }

  // ------------------------------------------------------- regular bodies

  /** Every header line, complete or pending, stays under the limit, and what follows the closing delimiter
      is harmless; read off the rounds from `p`. */
  ghost predicate Regular(p: PState, inLines: bool, accept: Receiver)
    decreases |p.window|, Rank(p, inLines)
  {
    p.window == "" ||
    (&& (p.phase == Headers ==> LineFits(p.window))
     && (p.phase == AfterBoundary && StartsWith(p.window, DASH) ==> HarmlessEpilogue(p.window[|DASH|..]))
     && var r := Round(p, inLines, accept);
        r.Continue? ==> Regular(r.p, r.inLines, accept))
  }

  predicate LineFits(w: string) {
    var pos := Find(w, CRLF);
    if pos < |w| then pos < HEADER_MAX_LENGTH else |w| <= HEADER_MAX_LENGTH
  }

  /** Lines that change nothing observable when they are read as header lines: all are accepted and under the
      limit, and no empty line ends them. */
  predicate HarmlessLines(w: string) {
    LinesTaken(w, IsHeaderLine)
  }

  /** Whether a header line is accepted does not depend on the pending file. */
  predicate IsHeaderLine(header: string) {
    HeaderLine(NO_FILE, header).1
  }

  predicate LinesTaken(w: string, taken: string -> bool) {
    var pos := Find(w, CRLF);
    LineFits(w) && (pos < |w| ==> 0 < pos && taken(w[..pos]) && LinesTaken(w[pos + |CRLF|..], taken))
  }

  /** After the closing delimiter the parser takes a line break for the start of another part. */
  ghost predicate HarmlessEpilogue(w: string) {
    BehindEveryBreak(w, HarmlessLines)
  }

  ghost predicate BehindEveryBreak(w: string, holds: string -> bool) {
    forall i: nat :: i <= |w| && OccursAt(w, CRLF, i) ==> holds(w[i + |CRLF|..])
  }

  lemma {:induction false} RegularCongruence<T>(view: seq<Event> -> T, p: PState, q: PState, inLines: bool,
                                                accept: Receiver)
    requires CutBlind(view) && Accepts(accept) && SameReport(view, p, q)
    requires Regular(p, inLines, accept)
    ensures Regular(q, inLines, accept)
    decreases |p.window|, Rank(p, inLines)
  {
    if p.window != "" {
      RoundCongruence(view, p, q, inLines, accept);
      var r := Round(p, inLines, accept);
      if r.Continue? {
        RegularCongruence(view, r.p, Round(q, inLines, accept).p, r.inLines, accept);
      }
    }
  }

  lemma {:induction false} RunCongruence<T>(view: seq<Event> -> T, p: PState, q: PState, inLines: bool,
                                            accept: Receiver)
    requires CutBlind(view) && Accepts(accept) && SameReport(view, p, q)
    ensures SameReport(view, Run(p, inLines, accept).p, Run(q, inLines, accept).p)
    ensures Run(p, inLines, accept).ok == Run(q, inLines, accept).ok
    decreases |p.window|, Rank(p, inLines)
  {
    if p.window != "" {
      RoundCongruence(view, p, q, inLines, accept);
      var r := Round(p, inLines, accept);
      if r.Continue? {
        RunCongruence(view, r.p, Round(q, inLines, accept).p, r.inLines, accept);
      }
    }
  }

  /** Outside the check of the header limit, the flag makes no difference. */
  lemma {:induction false} FlagIsIdle(p: PState, inLines: bool, accept: Receiver)
    requires Regular(p, inLines, accept)
    ensures Regular(p, false, accept)
    ensures Run(p, inLines, accept) == Run(p, false, accept)
  {
    if p.window != "" && p.phase == Headers && inLines {
      assert Round(p, false, accept) == Continue(p, true);
    }
  }

  // ----------------------------------------------- one more piece of bytes

  /** The opening delimiter line is in the window, if the parser still looks for it. */
  ghost predicate OpeningArrived(p: PState) {
    p.phase == OpeningBoundary ==> Find(p.window, DashBoundaryCrlf(p.boundary)) < |p.window|
  }

  /** Found inside the earlier bytes: cut off, the rest keeps the later bytes. */
  lemma {:induction false} CutAppend(w: string, b: string, d: string)
    requires d != "" && Find(w, d) < |w|
    ensures Find(w + b, d) == Find(w, d)
    ensures (w + b)[..Find(w, d)] == w[..Find(w, d)]
    ensures (w + b)[Find(w, d) + |d|..] == w[Find(w, d) + |d|..] + b
  {
    FindAppendHit(w, b, d);
  }

  lemma {:induction false} OpeningHit(p: PState, d: string)
    requires d != "" && Find(p.window, d) < |p.window|
    ensures RoundOpeningAt(p, d)
         == Continue(p.(window := p.window[Find(p.window, d) + |d|..], phase := NewEntry), false)
  {
    var pos := Find(p.window, d);
    assert OccursAt(p.window, d, pos);
    var t := p.window[pos..];
    assert t[..|d|] == p.window[pos..pos + |d|];
    assert t[|d|..] == p.window[pos + |d|..];
  }

  lemma {:induction false} OpeningAppend(p: PState, b: string, d: string)
    requires d != "" && Find(p.window, d) < |p.window|
    ensures RoundOpeningAt(p, d).Continue?
    ensures RoundOpeningAt(Append(p, b), d) == Continue(Append(RoundOpeningAt(p, d).p, b), false)
  {
    OpeningHit(p, d);
    CutAppend(p.window, b, d);
    OpeningHit(Append(p, b), d);
  }

  lemma {:induction false} ParsedLineAppend(p: PState, b: string, parsed: (FileInfo, bool), accept: Receiver)
    requires RoundParsedLine(p, parsed, accept).Continue?
    ensures var r := RoundParsedLine(p, parsed, accept);
            RoundParsedLine(Append(p, b), parsed, accept) == Continue(Append(r.p, b), r.inLines)
  {
    CutAppend(p.window, b, CRLF);
  }

  lemma {:induction false} HeaderLineAppend(p: PState, b: string, accept: Receiver)
    requires RoundHeaderLine(p, accept).Continue?
    ensures var r := RoundHeaderLine(p, accept);
            RoundHeaderLine(Append(p, b), accept) == Continue(Append(r.p, b), r.inLines)
  {
    CutAppend(p.window, b, CRLF);
    ParsedLineAppend(p, b, HeaderLine(p.file, p.window[..Find(p.window, CRLF)]), accept);
  }

  lemma {:induction false} BodyHitAppend(p: PState, b: string, accept: Receiver)
    requires RoundBody(p, accept).Continue?
    ensures RoundBody(Append(p, b), accept) == Continue(Append(RoundBody(p, accept).p, b), false)
  {
    CutAppend(p.window, b, CrlfDashBoundary(p.boundary));
  }

  lemma {:induction false} AfterBoundaryAppend(p: PState, b: string)
    requires RoundAfterBoundary(p).Continue? && !p.valid
    ensures var r := RoundAfterBoundary(p);
            RoundAfterBoundary(Append(p, b)) == if r.p.valid then r else Continue(Append(r.p, b), false)
  {
    var w := p.window;
    assert (w + b)[..2] == w[..2];
    assert (w + b)[2..] == w[2..] + b;
  }

  /** A round that goes on does the same when more bytes are behind it; only the closing delimiter
      swallows them. */
  lemma {:induction false} ContinueAppend(p: PState, inLines: bool, b: string, accept: Receiver)
    requires p.window != "" && !p.valid && OpeningArrived(p)
    requires Regular(Append(p, b), inLines, accept)
    requires Round(p, inLines, accept).Continue?
    ensures var r := Round(p, inLines, accept);
            Round(Append(p, b), inLines, accept)
            == if r.p.valid then r else Continue(Append(r.p, b), r.inLines)
  {
    match p.phase
    case OpeningBoundary => OpeningAppend(p, b, DashBoundaryCrlf(p.boundary));
    case NewEntry =>
    case Headers => if inLines { HeaderLineAppend(p, b, accept); }
    case Body => BodyHitAppend(p, b, accept);
    case AfterBoundary => AfterBoundaryAppend(p, b);
  }

  /** A failing round fails the same way when more bytes are behind it. */
  lemma {:induction false} FailAppend(p: PState, inLines: bool, b: string, accept: Receiver)
    requires Accepts(accept) && p.window != "" && !p.valid && OpeningArrived(p)
    requires Regular(Append(p, b), inLines, accept)
    requires Round(p, inLines, accept).Return? && !Round(p, inLines, accept).ok
    ensures var r, s := Round(p, inLines, accept), Round(Append(p, b), inLines, accept);
            s.Return? && !s.ok && s.p.log == r.p.log && s.p.valid == r.p.valid
  {
    if p.phase == OpeningBoundary {
      OpeningAppend(p, b, DashBoundaryCrlf(p.boundary));
    } else if p.phase == Headers {
      if Find(p.window, CRLF) < |p.window| {
        CutAppend(p.window, b, CRLF);
      } else {
        FindAppendMiss(p.window, b, CRLF);
      }
    }
  }

  /** The strings of `BodyMissAppend`: `u` is the window with the new bytes, `v` what is left of it when
      all but the last |d| earlier bytes have been handed out. */
  lemma {:induction false} MissStrings(w: string, b: string, d: string, u: string, v: string)
    requires d != "" && |d| < |w| && Find(w, d) == |w|
    requires u == w + b && v == w[|w| - |d|..] + b
    ensures var (len, pos) := (|w| - |d|, Find(u, d));
            && pos >= len && Find(v, d) == pos - len
            && (pos < |u| ==> w[..len] + v[..pos - len] == u[..pos] && v[pos - len + |d|..] == u[pos + |d|..])
            && (pos == |u| ==> w[..len] + v[..|v| - |d|] == u[..|u| - |d|] && v[|v| - |d|..] == u[|u| - |d|..])
  {
    var len := |w| - |d|;
    FindAppendMiss(w, b, d);
    assert v == u[len..];
    FindDrop(u, d, len);
    var cut := if Find(u, d) < |u| then Find(u, d) else |u| - |d|;
    assert w[..len] == u[..len] && v[..cut - len] == u[len..cut];
    assert u[..cut] == u[..len] + u[len..cut];
    assert forall k :: cut <= k <= |u| ==> u[k..] == v[k - len..];
  }

  lemma {:induction false} HitSame<T>(view: seq<Event> -> T, p: PState, q: PState, d: string, accept: Receiver,
                                      x: string, y: string)
    requires Accepts(accept) && d != "" && Alike(p, q)
    requires Find(p.window, d) < |p.window| && Find(q.window, d) < |q.window|
    requires p.window[Find(p.window, d) + |d|..] == q.window[Find(q.window, d) + |d|..]
    requires x == p.window[..Find(p.window, d)] && y == q.window[..Find(q.window, d)]
    requires view(p.log + [Content(x)]) == view(q.log + [Content(y)])
    ensures SameStep(view, RoundBodyUpTo(p, d, accept), RoundBodyUpTo(q, d, accept))
  {}

  lemma {:induction false} MissSame<T>(view: seq<Event> -> T, p: PState, q: PState, d: string, accept: Receiver,
                                       x: string, y: string)
    requires Accepts(accept) && d != "" && Alike(p, q)
    requires |d| < |p.window| == Find(p.window, d) && |d| < |q.window| == Find(q.window, d)
    requires p.window[|p.window| - |d|..] == q.window[|q.window| - |d|..]
    requires x == p.window[..|p.window| - |d|] && y == q.window[..|q.window| - |d|]
    requires view(p.log + [Content(x)]) == view(q.log + [Content(y)])
    ensures SameStep(view, RoundBodyUpTo(p, d, accept), RoundBodyUpTo(q, d, accept))
  {}

  lemma {:induction false} MissResult(p: PState, d: string, accept: Receiver)
    requires Accepts(accept) && d != "" && |d| < |p.window| == Find(p.window, d)
    ensures RoundBodyUpTo(p, d, accept)
         == Return(p.(window := p.window[|p.window| - |d|..],
                      log := p.log + [Content(p.window[..|p.window| - |d|])]), true)
  {}

  /** The body phase without a delimiter in sight hands out all but the last bytes; a delimiter that the
      next bytes complete lies behind them. `q` is the state it returns in. */
  lemma {:induction false} BodyMissAppend<T>(view: seq<Event> -> T, p: PState, b: string, d: string, accept: Receiver,
                                             q: PState)
    requires CutBlind(view) && Accepts(accept) && d != "" && b != ""
    requires |d| < |p.window| && Find(p.window, d) == |p.window|
    requires q == RoundBodyUpTo(p, d, accept).p
    ensures SameStep(view, RoundBodyUpTo(Append(p, b), d, accept), RoundBodyUpTo(Append(q, b), d, accept))
  {
    MissResult(p, d, accept);
    MissStrings(p.window, b, d, p.window + b, q.window + b);
    if Find(p.window + b, d) < |p.window + b| {
      CompletedDelimiter(view, p, q, b, d, accept);
    } else {
      StillNoDelimiter(view, p, q, b, d, accept);
    }
  }

  lemma {:induction false} CompletedDelimiter<T>(view: seq<Event> -> T, p: PState, q: PState, b: string, d: string,
                                                 accept: Receiver)
    requires CutBlind(view) && Accepts(accept) && d != "" && |d| < |p.window| == Find(p.window, d)
    requires Find(p.window + b, d) < |p.window + b|
    requires q == p.(window := p.window[|p.window| - |d|..], log := p.log + [Content(p.window[..|p.window| - |d|])])
    ensures SameStep(view, RoundBodyUpTo(Append(p, b), d, accept), RoundBodyUpTo(Append(q, b), d, accept))
  {
    var v := q.window + b;
    MissStrings(p.window, b, d, p.window + b, v);
    var x, y := p.window[..|p.window| - |d|], v[..Find(v, d)];
    ViewJoin(view, p.log, x, y);
    HitSame(view, Append(p, b), Append(q, b), d, accept, x + y, y);
  }

  lemma {:induction false} StillNoDelimiter<T>(view: seq<Event> -> T, p: PState, q: PState, b: string, d: string,
                                               accept: Receiver)
    requires CutBlind(view) && Accepts(accept) && d != "" && b != "" && |d| < |p.window| == Find(p.window, d)
    requires Find(p.window + b, d) == |p.window + b|
    requires q == p.(window := p.window[|p.window| - |d|..], log := p.log + [Content(p.window[..|p.window| - |d|])])
    ensures SameStep(view, RoundBodyUpTo(Append(p, b), d, accept), RoundBodyUpTo(Append(q, b), d, accept))
  {
    var v := q.window + b;
    MissStrings(p.window, b, d, p.window + b, v);
    var x, y := p.window[..|p.window| - |d|], v[..|v| - |d|];
    ViewJoin(view, p.log, x, y);
    MissSame(view, Append(p, b), Append(q, b), d, accept, x + y, y);
  }

  // ---------------------------------------------------------- whole calls

  /** `whole` is the outcome with the further bytes `b` appended at once, `first` the outcome without them. */
  ghost predicate Agree<T>(view: seq<Event> -> T, first: Outcome, whole: Outcome, b: string, accept: Receiver) {
    if !first.ok then SameVerdict(view, first, whole)
    else if first.p.valid then
      whole == first && first.p.phase == AfterBoundary && first.p.window == "" && HarmlessEpilogue(b)
    else
      var second := Run(Append(first.p, b), false, accept);
      && SameReport(view, whole.p, second.p) && whole.ok == second.ok
      && first.p.phase != OpeningBoundary && Regular(Append(first.p, b), false, accept)
  }

  lemma {:induction false} WaitingAgrees<T>(view: seq<Event> -> T, p: PState, inLines: bool, b: string,
                                            accept: Receiver)
    requires !p.valid && p.phase != OpeningBoundary && Regular(Append(p, b), inLines, accept)
    ensures Agree(view, Outcome(p, true), Run(Append(p, b), inLines, accept), b, accept)
  {
    FlagIsIdle(Append(p, b), inLines, accept);
  }

  lemma {:induction false} RoundLeavesOpening(p: PState, inLines: bool, accept: Receiver)
    requires p.window != "" && Round(p, inLines, accept).Continue?
    ensures Round(p, inLines, accept).p.phase != OpeningBoundary
  {}

  lemma {:induction false} SameStepSameRun<T>(view: seq<Event> -> T, p: PState, q: PState, accept: Receiver)
    requires CutBlind(view) && Accepts(accept)
    requires p.window != "" && q.window != "" && p.phase == Body && q.phase == Body
    requires SameStep(view, Round(p, false, accept), Round(q, false, accept))
    requires Regular(p, false, accept)
    ensures SameReport(view, Run(p, false, accept).p, Run(q, false, accept).p)
    ensures Run(p, false, accept).ok == Run(q, false, accept).ok
    ensures Regular(q, false, accept)
  {
    var r, s := Round(p, false, accept), Round(q, false, accept);
    if r.Continue? {
      RunCongruence(view, r.p, s.p, r.inLines, accept);
      RegularCongruence(view, r.p, s.p, r.inLines, accept);
    }
  }

  /** The body phase hands out bytes and waits. */
  lemma {:induction false} BodyWaitAgrees<T>(view: seq<Event> -> T, p: PState, b: string, accept: Receiver)
    requires CutBlind(view) && Accepts(accept) && !p.valid && p.phase == Body
    requires RoundBody(p, accept).Return? && RoundBody(p, accept).p != p
    requires Regular(Append(p, b), false, accept)
    ensures Agree(view, Outcome(RoundBody(p, accept).p, true), Run(Append(p, b), false, accept), b, accept)
  {
    var d := CrlfDashBoundary(p.boundary);
    var q := RoundBody(p, accept).p;
    MissResult(p, d, accept);
    if b == "" {
      assert Append(p, b) == p && Append(q, b) == q;
      FindDrop(p.window, d, |p.window| - |d|);
      assert Round(q, false, accept) == Return(q, true);
    } else {
      BodyMissAppend(view, p, b, d, accept, q);
      SameStepSameRun(view, Append(p, b), Append(q, b), accept);
    }
  }

  /** A round that returns: it failed, it waits unchanged, or it handed out body bytes. */
  lemma {:induction false} ReturnAgrees<T>(view: seq<Event> -> T, p: PState, inLines: bool, b: string, accept: Receiver)
    requires CutBlind(view) && Accepts(accept) && p.window != "" && !p.valid && OpeningArrived(p)
    requires Regular(Append(p, b), inLines, accept)
    requires Round(p, inLines, accept).Return?
    ensures var r := Round(p, inLines, accept);
            Agree(view, Outcome(r.p, r.ok), Run(Append(p, b), inLines, accept), b, accept)
  {
    var r := Round(p, inLines, accept);
    if !r.ok {
      FailAppend(p, inLines, b, accept);
    } else if p.phase == OpeningBoundary {
      OpeningAppend(p, b, DashBoundaryCrlf(p.boundary));
    } else if r.p == p {
      WaitingAgrees(view, p, inLines, b, accept);
    } else {
      FlagIsIdle(Append(p, b), inLines, accept);
      BodyWaitAgrees(view, p, b, accept);
    }
  }

  lemma {:induction false} OneMorePiece<T>(view: seq<Event> -> T, p: PState, inLines: bool, b: string, accept: Receiver)
    requires CutBlind(view) && Accepts(accept) && !p.valid && OpeningArrived(p)
    requires Regular(Append(p, b), inLines, accept)
    ensures Agree(view, Run(p, inLines, accept), Run(Append(p, b), inLines, accept), b, accept)
    decreases |p.window|, Rank(p, inLines)
  {
    if p.window == "" {
      WaitingAgrees(view, p, inLines, b, accept);
    } else {
      var r := Round(p, inLines, accept);
      if r.Return? {
        ReturnAgrees(view, p, inLines, b, accept);
      } else {
        ContinueAppend(p, inLines, b, accept);
        RoundLeavesOpening(p, inLines, accept);
        if r.p.valid {
          ClosingAgrees(view, p, inLines, b, accept);
        } else {
          OneMorePiece(view, r.p, r.inLines, b, accept);
        }
      }
    }
  }

  lemma {:induction false} SuffixOfSuffix(w: string, k: nat, i: nat)
    requires k + i <= |w|
    ensures w[k..][i..] == w[k + i..]
  {}

  lemma {:induction false} BreaksOfSuffix(w: string, k: nat, holds: string -> bool)
    requires BehindEveryBreak(w, holds) && k <= |w|
    ensures BehindEveryBreak(w[k..], holds)
  {
    forall i: nat | i <= |w[k..]| && OccursAt(w[k..], CRLF, i) ensures holds(w[k..][i + |CRLF|..]) {
      OccursDrop(w, CRLF, k, k + i);
      SuffixOfSuffix(w, k, i + |CRLF|);
    }
  }

  lemma {:induction false} EpilogueSuffix(w: string, k: nat)
    requires HarmlessEpilogue(w) && k <= |w|
    ensures HarmlessEpilogue(w[k..])
  {
    BreaksOfSuffix(w, k, HarmlessLines);
  }

  lemma {:induction false} ClosingAgrees<T>(view: seq<Event> -> T, p: PState, inLines: bool, b: string,
                                            accept: Receiver)
    requires p.window != "" && !p.valid && Regular(Append(p, b), inLines, accept)
    requires Round(p, inLines, accept).Continue? && Round(p, inLines, accept).p.valid
    requires Round(Append(p, b), inLines, accept) == Round(p, inLines, accept)
    ensures Agree(view, Run(p, inLines, accept), Run(Append(p, b), inLines, accept), b, accept)
  {
    assert p.phase == AfterBoundary && StartsWith(p.window, DASH);
    assert (p.window + b)[..|DASH|] == p.window[..|DASH|];
    EpilogueSuffix((p.window + b)[|DASH|..], |p.window| - |DASH|);
    assert (p.window + b)[|DASH|..][|p.window| - |DASH|..] == b;
  }

  // ------------------------------------------------------------ any cutting

  /** A parser that has seen the closing delimiter and has only harmless bytes to come. */
  ghost predicate Closing(p: PState, rest: string) {
    && p.valid
    && (|| (p.phase == AfterBoundary && HarmlessEpilogue(p.window + rest))
        || ((p.phase == NewEntry || p.phase == Headers) && HarmlessLines(p.window + rest)))
  }

  lemma {:induction false} AppliedAnyway(file: FileInfo, params: seq<(string, string)>)
    ensures ApplyParams(file, params).1 == ApplyParams(NO_FILE, params).1
  {}

  lemma {:induction false} AcceptedAnyway(file: FileInfo, header: string)
    ensures HeaderLine(file, header).1 == IsHeaderLine(header)
  {
    var m1 := DispositionParams(header);
    if m1.Some? { AppliedAnyway(file, Params(m1.value)); }
  }

  lemma {:induction false} FitsAppend(w: string, rest: string)
    requires LineFits(w + rest)
    ensures Find(w, CRLF) <= HEADER_MAX_LENGTH
  {
    if Find(w, CRLF) < |w| { CutAppend(w, rest, CRLF); } else { FindAppendMiss(w, rest, CRLF); }
  }

  lemma {:induction false} TakenLineAppend(w: string, rest: string, taken: string -> bool)
    requires LinesTaken(w + rest, taken)
    ensures Find(w, CRLF) <= HEADER_MAX_LENGTH
    ensures var pos := Find(w, CRLF);
            pos < |w| ==> 0 < pos && taken(w[..pos]) && LinesTaken(w[pos + |CRLF|..] + rest, taken)
  {
    FitsAppend(w, rest);
    if Find(w, CRLF) < |w| { CutAppend(w, rest, CRLF); }
  }

  lemma {:induction false} AfterCrlf(w: string, rest: string)
    requires HarmlessEpilogue(w + rest) && StartsWith(w, CRLF)
    ensures HarmlessLines(w[|CRLF|..] + rest)
  {
    assert (w + rest)[0..|CRLF|] == w[..|CRLF|];
    assert OccursAt(w + rest, CRLF, 0);
    assert (w + rest)[|CRLF|..] == w[|CRLF|..] + rest;
  }

  lemma {:induction false} BehindAnother(w: string, rest: string)
    requires HarmlessEpilogue(w + rest)
    ensures HarmlessEpilogue("" + rest)
  {
    EpilogueSuffix(w + rest, |w|);
    assert (w + rest)[|w|..] == "" + rest;
  }

  /** One round of a closing parser: it goes on closing and tells nobody anything. */
  lemma {:induction false} ClosingRound(p: PState, inLines: bool, rest: string, accept: Receiver)
    requires Closing(p, rest) && p.window != ""
    ensures match Round(p, inLines, accept)
            case Return(q, ok) => ok && q == p
            case Continue(q, _) => q.log == p.log && Closing(q, rest)
  {
    if p.phase == AfterBoundary {
      if StartsWith(p.window, CRLF) {
        AfterCrlf(p.window, rest);
      } else if StartsWith(p.window, DASH) {
        BehindAnother(p.window, rest);
      }
    } else if p.phase == Headers {
      TakenLineAppend(p.window, rest, IsHeaderLine);
      if inLines { AcceptedAnyway(p.file, p.window[..Find(p.window, CRLF)]); }
    }
  }

  lemma {:induction false} ClosingRun(p: PState, inLines: bool, rest: string, accept: Receiver)
    requires Closing(p, rest)
    ensures var o := Run(p, inLines, accept); o.ok && o.p.log == p.log && Closing(o.p, rest)
    decreases |p.window|, Rank(p, inLines)
  {
    if p.window != "" {
      ClosingRound(p, inLines, rest, accept);
      match Round(p, inLines, accept)
      case Return(_, _) =>
      case Continue(q, lines) => ClosingRun(q, lines, rest, accept);
    }
  }

  /** After the closing delimiter, harmless bytes in any cutting change nothing observable. */
  lemma {:induction false} EpilogueIsIdle(p: PState, pieces: seq<string>, accept: Receiver)
    requires Closing(p, Concat(pieces))
    ensures var o := FeedAll(p, pieces, accept); o.ok && o.p.valid && o.p.log == p.log
    decreases |pieces|
  {
    if pieces != [] {
      Regroup(p.window, pieces[0], Concat(pieces[1..]));
      ClosingRun(Append(p, pieces[0]), false, Concat(pieces[1..]), accept);
      EpilogueIsIdle(Feed(p, pieces[0], accept).p, pieces[1..], accept);
    }
  }

  lemma {:induction false} PieceIndependenceFrom<T>(view: seq<Event> -> T, p: PState, pieces: seq<string>,
                                                    accept: Receiver)
    requires CutBlind(view) && Accepts(accept) && !p.valid && pieces != []
    requires OpeningArrived(Append(p, pieces[0]))
    requires Regular(Append(p, Concat(pieces)), false, accept)
    ensures SameVerdict(view, FeedAll(p, pieces, accept), Feed(p, Concat(pieces), accept))
    decreases |pieces|
  {
    var a, b := pieces[0], Concat(pieces[1..]);
    assert p.window + a + b == p.window + (a + b);
    OneMorePiece(view, Append(p, a), false, b, accept);
    var first := Feed(p, a, accept);
    if first.ok && first.p.valid {
      assert first.p.window + b == b;
      EpilogueIsIdle(first.p, pieces[1..], accept);
    } else if first.ok {
      if |pieces| == 1 {
        assert Append(Append(p, a), b) == Append(p, a);
      } else {
        PieceIndependenceFrom(view, first.p, pieces[1..], accept);
      }
    }
  }

  /** Any cutting of a regular body reports the parts that one call with the whole body reports. */
  lemma {:induction false} PieceIndependence(p: PState, pieces: seq<string>, accept: Receiver)
    requires Accepts(accept) && !p.valid && pieces != []
    requires OpeningArrived(Append(p, pieces[0]))
    requires Regular(Append(p, Concat(pieces)), false, accept)
    ensures var (cut, whole) := (FeedAll(p, pieces, accept), Feed(p, Concat(pieces), accept));
            cut.ok == whole.ok && cut.p.valid == whole.p.valid && Parts(cut.p.log) == Parts(whole.p.log)
  {
    PartsIsCutBlind();
    PieceIndependenceFrom(Parts, p, pieces, accept);
  }

  // ------------------------------------------------- epilogues that can be spoilt

  lemma {:induction false} EventAddsPart(parts: seq<Part>, e: Event)
    ensures |AddEvent(parts, e)| == |parts| + if e.Header? then 1 else 0
  {}

  lemma {:induction false} RunKeepsParts(p: PState, inLines: bool, accept: Receiver)
    requires Accepts(accept)
    ensures |Parts(p.log)| <= |Parts(Run(p, inLines, accept).p.log)|
    decreases |p.window|, Rank(p, inLines)
  {
    if p.window != "" {
      var delta := RoundEmits(p, p.log, inLines, accept);
      if delta == [] {
        assert p.log + delta == p.log;
      } else {
        assert delta == [delta[0]];
        PartsSnoc(p.log, delta[0]);
        EventAddsPart(Parts(p.log), delta[0]);
      }
      match Round(p, inLines, accept)
      case Return(_, _) =>
      case Continue(q, lines) => RunKeepsParts(q, lines, accept);
    }
  }

  lemma {:induction false} FeedAllKeepsParts(p: PState, pieces: seq<string>, accept: Receiver)
    requires Accepts(accept)
    ensures |Parts(p.log)| <= |Parts(FeedAll(p, pieces, accept).p.log)|
    decreases |pieces|
  {
    if pieces != [] {
      RunKeepsParts(Append(p, pieces[0]), false, accept);
      FeedAllKeepsParts(Feed(p, pieces[0], accept).p, pieces[1..], accept);
    }
  }

  /** Something is refused, or a part is reported that was not there. */
  predicate Spoilt(p: PState, o: Outcome) {
    !o.ok || |Parts(o.p.log)| > |Parts(p.log)|
  }

  /** Waiting for a header line, with nothing in the window. */
  predicate AtLine(p: PState) {
    (p.phase == NewEntry || p.phase == Headers) && p.window == ""
  }

  lemma {:induction false} RunContinues(p: PState, inLines: bool, q: PState, lines: bool, accept: Receiver)
    requires p.window != "" && Round(p, inLines, accept) == Continue(q, lines)
    ensures Run(p, inLines, accept) == Run(q, lines, accept)
  {}

  lemma {:induction false} RunEnds(p: PState, inLines: bool, accept: Receiver)
    requires p.window == ""
    ensures Run(p, inLines, accept) == Outcome(p, true)
  {}

  /** The first two rounds at a header line: a new entry is entered, and the length is checked. */
  lemma {:induction false} EnterLine(p: PState, piece: string, q: PState, accept: Receiver)
    requires AtLine(p) && piece != ""
    requires q == p.(window := piece, file := if p.phase == NewEntry then NO_FILE else p.file, phase := Headers)
    ensures Feed(p, piece, accept) == Run(q, false, accept)
    ensures Find(piece, CRLF) <= HEADER_MAX_LENGTH ==> Run(q, false, accept) == Run(q, true, accept)
    ensures Find(piece, CRLF) > HEADER_MAX_LENGTH ==> !Run(q, false, accept).ok
  {
    assert p.window + piece == piece;
    if p.phase == NewEntry { RunContinues(Append(p, piece), false, q, false, accept); }
    if Find(piece, CRLF) <= HEADER_MAX_LENGTH { RunContinues(q, false, q, true, accept); }
  }

  lemma {:induction false} LongLineFails(p: PState, line: string, accept: Receiver)
    requires AtLine(p) && Find(line, CRLF) > HEADER_MAX_LENGTH
    ensures !Feed(p, line, accept).ok
  {
    EnterLine(p, line, p.(window := line, file := if p.phase == NewEntry then NO_FILE else p.file, phase := Headers),
              accept);
  }

  /** One whole line in a piece of its own. */
  lemma {:induction false} LinePiece(p: PState, piece: string, accept: Receiver)
    requires Accepts(accept) && AtLine(p)
    requires |piece| >= |CRLF| && Find(piece, CRLF) == |piece| - |CRLF| <= HEADER_MAX_LENGTH
    ensures var (o, line) := (Feed(p, piece, accept), piece[..|piece| - |CRLF|]);
            if line == "" then o.ok && exists file :: o.p.log == p.log + [Header(file)]
            else if IsHeaderLine(line) then o.ok && AtLine(o.p) && o.p.log == p.log
            else !o.ok
  {
    var q := p.(window := piece, file := if p.phase == NewEntry then NO_FILE else p.file, phase := Headers);
    EnterLine(p, piece, q, accept);
    var line := piece[..|piece| - |CRLF|];
    AcceptedAnyway(q.file, line);
    RoundOfLine(q, line, HeaderLine(q.file, line), accept);
    LineRound(q, line, HeaderLine(q.file, line), accept);
  }

  lemma {:induction false} RoundOfLine(q: PState, line: string, parsed: (FileInfo, bool), accept: Receiver)
    requires q.phase == Headers && q.window != ""
    requires line == q.window[..Find(q.window, CRLF)] && parsed == HeaderLine(q.file, line)
    ensures Round(q, true, accept) == RoundParsedLine(q, parsed, accept)
  {}

  lemma {:induction false} LineRound(q: PState, line: string, parsed: (FileInfo, bool), accept: Receiver)
    requires Accepts(accept) && |q.window| >= |CRLF| && Find(q.window, CRLF) == |q.window| - |CRLF| == |line|
    requires Round(q, true, accept) == RoundParsedLine(q, parsed, accept) && q.phase == Headers
    ensures var o := Run(q, true, accept);
            if line == "" then o.ok && o.p.log == q.log + [Header(q.file)]
            else if parsed.1 then o.ok && AtLine(o.p) && o.p.log == q.log
            else !o.ok
  {
    LineResult(q, parsed, accept);
    var r := Round(q, true, accept);
    if r.Continue? {
      RunContinues(q, true, r.p, r.inLines, accept);
      RunEnds(r.p, r.inLines, accept);
    }
  }

  lemma {:induction false} LineResult(q: PState, parsed: (FileInfo, bool), accept: Receiver)
    requires Accepts(accept) && |q.window| >= |CRLF| && Find(q.window, CRLF) == |q.window| - |CRLF|
    ensures RoundParsedLine(q, parsed, accept)
         == if |q.window| == |CRLF| then
              Continue(q.(window := "", phase := Body, log := q.log + [Header(q.file)]), false)
            else if parsed.1 then Continue(q.(file := parsed.0, window := ""), true)
            else Return(q.(file := parsed.0, valid := false), false)
  {
    assert q.window[|q.window|..] == "";
  }

  lemma {:induction false} FeedAllCons(p: PState, a: string, pieces: seq<string>, accept: Receiver)
    ensures var first := Feed(p, a, accept);
            FeedAll(p, [a] + pieces, accept) == if first.ok then FeedAll(first.p, pieces, accept) else first
  {
    assert ([a] + pieces)[1..] == pieces;
  }

  lemma {:induction false} SplitInTwo(h: string, k: nat)
    requires k <= |h|
    ensures Concat([h[..k]] + [h[k..]]) == h
  {
    ConcatCons(h[..k], [h[k..]]);
    ConcatOne(h[k..]);
  }

  /** No occurrence ends before one byte past the start of the first. */
  lemma {:induction false} UpToFirst(h: string, k: nat)
    requires k <= |h| && k <= Find(h, CRLF) + 1
    ensures Find(h[..k], CRLF) == k
  {
    forall j: nat | j < k ensures !OccursAt(h[..k], CRLF, j) {
      if j + |CRLF| <= k { OccursAppend(h[..k], h[k..], CRLF, j); assert h[..k] + h[k..] == h; }
    }
    FindIs(h[..k], CRLF, k);
  }

  lemma {:induction false} FirstLinePiece(h: string)
    requires Find(h, CRLF) < |h|
    ensures var piece := h[..Find(h, CRLF) + |CRLF|];
            && Find(piece, CRLF) == |piece| - |CRLF| == Find(h, CRLF)
            && piece[..|piece| - |CRLF|] == h[..Find(h, CRLF)]
  {
    var (pos, piece) := (Find(h, CRLF), h[..Find(h, CRLF) + |CRLF|]);
    forall j: nat | j < pos ensures !OccursAt(piece, CRLF, j) {
      if j + |CRLF| <= |piece| { OccursAppend(piece, h[|piece|..], CRLF, j); assert piece + h[|piece|..] == h; }
    }
    assert piece[pos..pos + |CRLF|] == h[pos..pos + |CRLF|];
    FindIs(piece, CRLF, pos);
  }

  /** Where to cut so that the first line, if it is to blame, spoils something: a line that is too long is cut
      before its LF. */
  function LineCut(h: string): (k: nat)
    ensures k <= |h|
    ensures !HarmlessLines(h) ==> k > 0
  {
    var pos := Find(h, CRLF);
    if pos == |h| then pos else if LineFits(h) then pos + |CRLF| else pos + 1
  }

  /** The first line of lines that are not harmless, in a piece of its own. */
  lemma {:induction false} FirstLineSpoils(p: PState, h: string, k: nat, o: Outcome, accept: Receiver)
    requires Accepts(accept) && AtLine(p) && !HarmlessLines(h) && k == LineCut(h) && o == Feed(p, h[..k], accept)
    ensures Spoilt(p, o) || (o.ok && AtLine(o.p) && o.p.log == p.log && !HarmlessLines(h[k..]))
  {
    if !LineFits(h) {
      UpToFirst(h, k);
      LongLineFails(p, h[..k], accept);
    } else {
      FirstLinePiece(h);
      LinePiece(p, h[..k], accept);
      if Find(h, CRLF) == 0 {
        var file :| o.p.log == p.log + [Header(file)];
        PartsSnoc(p.log, Header(file));
      }
    }
  }

  lemma {:induction false} SpoiltAtOnce(p: PState, h: string, k: nat, accept: Receiver)
    requires Accepts(accept) && k <= |h| && Spoilt(p, Feed(p, h[..k], accept))
    ensures Concat([h[..k]] + [h[k..]]) == h && Spoilt(p, FeedAll(p, [h[..k]] + [h[k..]], accept))
  {
    SplitInTwo(h, k);
    FeedAllCons(p, h[..k], [h[k..]], accept);
    FeedAllKeepsParts(Feed(p, h[..k], accept).p, [h[k..]], accept);
  }

  lemma {:induction false} SpoiltLater(p: PState, h: string, k: nat, o: Outcome, more: seq<string>, accept: Receiver)
    requires k <= |h| && o == Feed(p, h[..k], accept) && o.ok && o.p.log == p.log
    requires Concat(more) == h[k..] && Spoilt(o.p, FeedAll(o.p, more, accept))
    ensures Concat([h[..k]] + more) == h && Spoilt(p, FeedAll(p, [h[..k]] + more, accept))
  {
    ConcatCons(h[..k], more);
    FeedAllCons(p, h[..k], more, accept);
  }

  /** Lines that are not harmless are spoilt when each comes in a piece of its own. */
  lemma {:induction false} LinesSpoil(p: PState, h: string, accept: Receiver) returns (pieces: seq<string>)
    requires Accepts(accept) && AtLine(p) && !HarmlessLines(h)
    ensures Concat(pieces) == h && Spoilt(p, FeedAll(p, pieces, accept))
    decreases |h|
  {
    var k := LineCut(h);
    var o := Feed(p, h[..k], accept);
    FirstLineSpoils(p, h, k, o, accept);
    if Spoilt(p, o) {
      SpoiltAtOnce(p, h, k, accept);
      pieces := [h[..k]] + [h[k..]];
    } else {
      var more := LinesSpoil(o.p, h[k..], accept);
      SpoiltLater(p, h, k, o, more, accept);
      pieces := [h[..k]] + more;
    }
  }

  lemma {:induction false} ClosingDelimiterPiece(p: PState, w: string, accept: Receiver)
    requires p.phase == AfterBoundary && p.window == ""
    ensures Feed(p, DASH + w, accept) == Outcome(p.(valid := true), true)
  {
    var q := Append(p, DASH + w);
    assert q.window[..|DASH|] == DASH;
    assert q.window[..|CRLF|] != CRLF by { assert q.window[0] == '-'; }
    RunContinues(q, false, q.(window := "", valid := true), false, accept);
    RunEnds(q.(window := "", valid := true), false, accept);
  }

  lemma {:induction false} LineBreakPiece(p: PState, accept: Receiver)
    requires p.phase == AfterBoundary && p.window == ""
    ensures Feed(p, CRLF, accept) == Outcome(p.(phase := NewEntry), true)
  {
    var q := Append(p, CRLF);
    assert q.window == CRLF && q.window[..|CRLF|] == CRLF && q.window[|CRLF|..] == "";
    RunContinues(q, false, q.(window := "", phase := NewEntry), false, accept);
    RunEnds(q.(window := "", phase := NewEntry), false, accept);
  }

  lemma {:induction false} ConcatAroundBreak(w: string, i: nat, more: seq<string>)
    requires i <= |w| && OccursAt(w, CRLF, i) && Concat(more) == w[i + |CRLF|..]
    ensures Concat([DASH + w[..i]] + ([CRLF] + more)) == DASH + w
  {
    ConcatCons(CRLF, more);
    ConcatCons(DASH + w[..i], [CRLF] + more);
    assert w == w[..i] + (CRLF + w[i + |CRLF|..]);
    Regroup(DASH, w[..i], CRLF + w[i + |CRLF|..]);
  }

  /** Cut around a line break that is not followed by harmless lines. */
  lemma {:induction false} BreakSpoils(p: PState, w: string, i: nat, accept: Receiver) returns (pieces: seq<string>)
    requires Accepts(accept) && p.phase == AfterBoundary && p.window == ""
    requires i <= |w| && OccursAt(w, CRLF, i) && !HarmlessLines(w[i + |CRLF|..])
    ensures Concat(pieces) == DASH + w && Spoilt(p, FeedAll(p, pieces, accept))
  {
    ClosingDelimiterPiece(p, w[..i], accept);
    var q := p.(valid := true);
    LineBreakPiece(q, accept);
    var more := LinesSpoil(q.(phase := NewEntry), w[i + |CRLF|..], accept);
    pieces := [DASH + w[..i]] + ([CRLF] + more);
    FeedAllCons(p, DASH + w[..i], [CRLF] + more, accept);
    FeedAllCons(q, CRLF, more, accept);
    ConcatAroundBreak(w, i, more);
  }

  /** An epilogue survives every cutting, with the closing delimiter before it, exactly when it is harmless. */
  lemma {:induction false} EpilogueExactly(p: PState, w: string, accept: Receiver)
    requires Accepts(accept) && p.phase == AfterBoundary && !p.valid && p.window == ""
    ensures (forall pieces :: Concat(pieces) == DASH + w ==>
               SameVerdict(Parts, FeedAll(p, pieces, accept), Feed(p, DASH + w, accept)))
            <==> HarmlessEpilogue(w)
  {
    ClosingDelimiterPiece(p, w, accept);
    if HarmlessEpilogue(w) {
      forall pieces | Concat(pieces) == DASH + w
        ensures SameVerdict(Parts, FeedAll(p, pieces, accept), Feed(p, DASH + w, accept))
      {
        ClosingIsRegular(Append(p, DASH + w), w, accept);
        PieceIndependence(p, pieces, accept);
      }
    } else {
      var i: nat :| i <= |w| && OccursAt(w, CRLF, i) && !HarmlessLines(w[i + |CRLF|..]);
      var pieces := BreakSpoils(p, w, i, accept);
      assert !SameVerdict(Parts, FeedAll(p, pieces, accept), Feed(p, DASH + w, accept));
    }
  }

  lemma {:induction false} ClosingIsRegular(p: PState, w: string, accept: Receiver)
    requires p.phase == AfterBoundary && p.window == DASH + w && HarmlessEpilogue(w)
    ensures Regular(p, false, accept)
  {
    assert p.window[..|DASH|] == DASH && p.window[|DASH|..] == w;
    assert p.window[..|CRLF|] != CRLF by { assert p.window[0] == '-'; }
    assert Round(p, false, accept) == Continue(p.(window := "", valid := true), false);
  }

  const SHORT_EPILOGUE := "\r\nx\r\n"

  lemma {:induction false} ShortEpilogueFails(p: PState, accept: Receiver)
    requires Accepts(accept) && p.phase == AfterBoundary && p.window == ""
    ensures var o := Feed(p, SHORT_EPILOGUE, accept); !o.ok && !o.p.valid
  {
    var q := Append(p, SHORT_EPILOGUE);
    var w := "x\r\n";
    assert q.window == SHORT_EPILOGUE && q.window[..|CRLF|] == CRLF && q.window[|CRLF|..] == w;
    RunContinues(q, false, q.(window := w, phase := NewEntry), false, accept);
    XLine(w);
    var r := q.(window := "", phase := NewEntry);
    var t := r.(window := w, file := NO_FILE, phase := Headers);
    EnterLine(r, w, t, accept);
    assert r.window + w == w;
    assert Feed(r, w, accept) == Run(q.(window := w, phase := NewEntry), false, accept);
    XIsNoHeader();
    RoundOfLine(t, "x", HeaderLine(NO_FILE, "x"), accept);
    LineResult(t, HeaderLine(NO_FILE, "x"), accept);
  }

  lemma {:induction false} XLine(w: string)
    requires w == "x\r\n"
    ensures Find(w, CRLF) == 1 && w[..1] == "x"
  {
    assert w[1..3] == [w[1], w[2]];
    assert w[0..2][0] == 'x' && CRLF[0] == '\r';
    FindIs(w, CRLF, 1);
  }

  lemma {:induction false} XIsNoHeader()
    ensures !IsHeaderLine("x")
  {}

  /** One such epilogue: with the closing delimiter in one call it is ignored, in a call of its own it makes
      the parser refuse the whole body. */
  lemma {:induction false} ShortEpilogueSpoils(p: PState, accept: Receiver)
    requires Accepts(accept) && p.phase == AfterBoundary && !p.valid && p.window == ""
    ensures Feed(p, DASH + SHORT_EPILOGUE, accept) == Outcome(p.(valid := true), true)
    ensures var o := FeedAll(p, [DASH, SHORT_EPILOGUE], accept); !o.ok && !o.p.valid
  {
    ClosingDelimiterPiece(p, SHORT_EPILOGUE, accept);
    ClosingDelimiterPiece(p, "", accept);
    assert DASH + "" == DASH;
    ShortEpilogueFails(p.(valid := true), accept);
    FeedAllCons(p, DASH, [SHORT_EPILOGUE], accept);
    assert [DASH] + [SHORT_EPILOGUE] == [DASH, SHORT_EPILOGUE];
  }

  /** A first piece without the whole opening delimiter line is dropped, whatever it holds. */
  lemma {:induction false} MissingOpeningIsDropped(boundary: string, first: string, pieces: seq<string>,
                                                   accept: Receiver)
    requires Find(first, DashBoundaryCrlf(boundary)) == |first|
    ensures FeedAll(Start(boundary), [first] + pieces, accept) == FeedAll(Start(boundary), pieces, accept)
  {
    var p := Append(Start(boundary), first);
    assert p.window == first;
    if first != "" {
      assert RoundOpeningAt(p, DashBoundaryCrlf(boundary)) == Return(Start(boundary), true);
    }
    assert Feed(Start(boundary), first, accept) == Outcome(Start(boundary), true);
    assert ([first] + pieces)[1..] == pieces;
  }

  /** The first piece that holds the whole line `d`, or the number of pieces. */
  function FirstHolding(pieces: seq<string>, d: string): (k: nat)
    ensures k <= |pieces|
    ensures k < |pieces| ==> Find(pieces[k], d) < |pieces[k]|
    ensures forall i :: 0 <= i < k ==> Find(pieces[i], d) == |pieces[i]|
  {
    if pieces == [] || Find(pieces[0], d) < |pieces[0]| then 0 else 1 + FirstHolding(pieces[1..], d)
  }

  /** Pieces before the one that holds the opening delimiter line leave no trace. */
  lemma {:induction false} OpeningIsAwaited(boundary: string, pieces: seq<string>, accept: Receiver)
    ensures var k := FirstHolding(pieces, DashBoundaryCrlf(boundary));
            FeedAll(Start(boundary), pieces, accept) == FeedAll(Start(boundary), pieces[k..], accept)
    decreases |pieces|
  {
    var d := DashBoundaryCrlf(boundary);
    if FirstHolding(pieces, d) > 0 {
      MissingOpeningIsDropped(boundary, pieces[0], pieces[1..], accept);
      assert pieces == [pieces[0]] + pieces[1..];
      OpeningIsAwaited(boundary, pieces[1..], accept);
      assert pieces[1..][FirstHolding(pieces[1..], d)..] == pieces[FirstHolding(pieces, d)..];
    }
  }

  /** What any cutting of any body comes to: without a piece that holds the whole opening delimiter line
      nothing is reported; with one, the report is that of one call with that piece and all later ones. */
  lemma {:induction false} AnyCutting(boundary: string, pieces: seq<string>, accept: Receiver)
    requires Accepts(accept)
    ensures var k := FirstHolding(pieces, DashBoundaryCrlf(boundary));
            var cut := FeedAll(Start(boundary), pieces, accept);
            if k == |pieces| then cut == Outcome(Start(boundary), true)
            else Regular(Append(Start(boundary), Concat(pieces[k..])), false, accept) ==>
              SameVerdict(Parts, cut, Feed(Start(boundary), Concat(pieces[k..]), accept))
  {
    var k := FirstHolding(pieces, DashBoundaryCrlf(boundary));
    OpeningIsAwaited(boundary, pieces, accept);
    if k < |pieces| && Regular(Append(Start(boundary), Concat(pieces[k..])), false, accept) {
      assert Start(boundary).window + pieces[k] == pieces[k];
      PieceIndependence(Start(boundary), pieces[k..], accept);
    }
  }

  /** The parser object driven through `pieces`, as the content reader of the server drives it. */
  method ParsePieces(boundary: string, pieces: seq<string>, accept: Receiver)
    returns (ok: bool, valid: bool, log: seq<Event>)
    ensures var o := FeedAll(Start(boundary), pieces, accept);
            ok == o.ok && valid == o.p.valid && log == o.p.log
  {
    var parser := new MultipartFormDataParser(boundary);
    ok := true;
    var i := 0;
    while ok && i < |pieces|
      invariant i <= |pieces| && parser.Valid()
      invariant fresh(parser)
      invariant if ok then FeedAll(parser.State(), pieces[i..], accept) == FeedAll(Start(boundary), pieces, accept)
                else FeedAll(Start(boundary), pieces, accept) == Outcome(parser.State(), false)
    {
      ok := parser.Parse(pieces[i], accept);
      assert pieces[i..][1..] == pieces[i + 1..];
      i := i + 1;
    }
    return ok, parser.isValid, parser.log;
  }
}
