/** A serialized body whose opening delimiter line is cut never delivers its items, whatever the contents
    hold: the parser starts late, and stays late. */
module MultipartOpening {
  import opened Bytes
  import opened Multipart
  import opened MultipartPieces
  import opened MultipartRoundTrip

  /** The body from the content of the first part on. */
  function From(items: seq<Item>, boundary: string): string
    requires items != []
  {
    items[0].content + CrlfDashBoundary(boundary) +
    if |items| == 1 then DASH + CRLF else CRLF + BodyRest(items[1..], boundary)
  }

  /** `r` is what remains of `w` when at least `k` bytes are gone. */
  predicate Remains(r: string, w: string, k: nat) {
    |r| + k <= |w| && w[|w| - |r|..] == r
  }

  lemma {:induction false} RemainsOfRest(r: string, w: string, k: nat, i: nat)
    requires Remains(r, w, k) && i <= |r|
    ensures Remains(r[i..], w, k + i)
  {}

  lemma {:induction false} RemainsTail(w: string, rest: string, i: nat)
    requires i <= |w|
    ensures (w + rest)[i..] == w[i..] + rest
  {}

  // ------------------------------------------------- delimiters behind the content

  /** How a delimiter starts that ends a content. */
  const BREAK_DASH := "\r\n-"

  lemma {:induction false} BreakAfterLine(line: string, rest: string, i: nat)
    requires !Contains(line, CRLF) && OccursAt(line + CRLF + rest, CRLF, i)
    ensures i == |line| || i >= |line| + |CRLF|
  {
    var w := line + CRLF + rest;
    FindLineEnd(line, rest);
    assert w[|line| + 1] == '\n' && w[i..i + |CRLF|][0] == w[i];
  }

  lemma {:induction false} OccursPrefix(w: string, p: string, q: string, i: nat)
    requires OccursAt(w, p, i) && q <= p
    ensures OccursAt(w, q, i)
  {
    assert w[i..i + |q|] == w[i..i + |p|][..|q|];
  }

  /** A line break before a dash does not end a line behind which something else comes. */
  lemma {:induction false} DashAfterLine(line: string, rest: string, i: nat)
    requires !Contains(line, CRLF) && rest != "" && rest[0] != '-'
    requires OccursAt(line + CRLF + rest, BREAK_DASH, i)
    ensures i >= |line| + |CRLF| && OccursAt(rest, BREAK_DASH, i - |line| - |CRLF|)
  {
    var w := line + CRLF + rest;
    OccursPrefix(w, BREAK_DASH, CRLF, i);
    BreakAfterLine(line, rest, i);
    assert w[i..i + |BREAK_DASH|][2] == w[i + 2] == '-';
    assert w[|line| + |CRLF|] == rest[0];
    OccursDrop(w, BREAK_DASH, |line| + |CRLF|, i);
    assert w[|line| + |CRLF|..] == rest;
  }

  /** The type line of a part, or nothing. */
  function TypeLine(item: Item): string {
    if item.contentType == "" then "" else ContentTypeLine(item)
  }

  /** A line that is left out when it is empty. */
  function Optional(line: string): string { if line == "" then "" else line + CRLF }

  function TwoLines(line: string, second: string, more: string): string {
    line + CRLF + (Optional(second) + (CRLF + more))
  }

  /** The lines of a part as far as it matters here. */
  predicate PlainLine(line: string) {
    Find(line, CRLF) == |line| && (line != "" ==> line[0] == 'C')
  }

  /** Behind a line break, no break before a dash until the empty line that ends the fields. */
  lemma {:induction false} DashAfterTwo(line: string, second: string, more: string, i: nat)
    requires line != "" && PlainLine(line) && PlainLine(second)
    requires OccursAt("" + CRLF + TwoLines(line, second, more), BREAK_DASH, i)
    ensures i >= |CRLF| + |line| + |CRLF| + |Optional(second)|
  {
    var t := Optional(second) + (CRLF + more);
    NoCrNoCrlf("");
    assert t[0] == '\r' || t[0] == 'C';
    DashAfterLine("", line + CRLF + t, i);
    DashAfterLine(line, t, i - 2);
    if second != "" {
      assert t == second + CRLF + (CRLF + more);
      DashAfterLine(second, CRLF + more, i - 2 - |line| - 2);
    }
  }

  lemma {:induction false} LinesArePlain(item: Item)
    requires PlainParam(item.name) && PlainParam(item.filename) && !Contains(item.contentType, CRLF)
    ensures PlainLine(DispositionLine(item)) && PlainLine(TypeLine(item)) && DispositionLine(item) != ""
  {
    LinesHaveNoCrlf(item);
    NoCrNoCrlf("");
  }

  lemma {:induction false} FieldsSplit(item: Item, more: string)
    ensures Fields(item) + more == TwoLines(DispositionLine(item), TypeLine(item), more)
    ensures |Fields(item)| == |DispositionLine(item)| + |CRLF| + |Optional(TypeLine(item))| + |CRLF|
  {
    var line := DispositionLine(item);
    assert Fields(item) + more == line + CRLF + (Optional(TypeLine(item)) + (CRLF + more));
  }

  lemma {:induction false} CrIn(d: string, rest: string, i: nat, p: string)
    requires OccursAt(d + rest, p, i) && p != "" && p[0] == '\r' && i >= 1
    requires forall k :: 0 < k < |d| ==> d[k] != '\r'
    ensures i >= |d| && OccursAt(rest, p, i - |d|)
  {
    var w := d + rest;
    assert w[i..i + |p|][0] == w[i];
    OccursDrop(w, p, |d|, i);
    assert w[|d|..] == rest;
  }

  /** Behind the content of the last part there is one line break but that of the delimiter, at the end. */
  lemma {:induction false} LastBreak(boundary: string, i: nat)
    requires BoundaryCharsValid(boundary) && i >= 1
    requires OccursAt(CrlfDashBoundary(boundary) + (DASH + CRLF), CRLF, i)
    ensures i == |CrlfDashBoundary(boundary)| + |DASH|
  {
    DelimiterHasOneCr(boundary);
    CrIn(CrlfDashBoundary(boundary), DASH + CRLF, i, CRLF);
    var k := i - |CrlfDashBoundary(boundary)|;
    assert (DASH + CRLF)[k..k + |CRLF|][0] == (DASH + CRLF)[k];
  }

  lemma {:induction false} FromSplit(items: seq<Item>, boundary: string)
    requires |items| > 1
    ensures From(items, boundary)
         == items[0].content + (CrlfDashBoundary(boundary) + (CRLF + (Fields(items[1]) + From(items[1..], boundary))))
  {
    assert BodyRest(items[1..], boundary) == Fields(items[1]) + From(items[1..], boundary);
    Regroup(items[0].content, CrlfDashBoundary(boundary), CRLF + BodyRest(items[1..], boundary));
  }

  /** A delimiter behind the one that ends the first content ends no earlier than the content of the second
      part has begun. */
  lemma {:induction false} LaterDelimiter(items: seq<Item>, boundary: string, w: string, i: nat)
    requires BoundaryCharsValid(boundary) && items != [] && AllCarriable(items, boundary)
    requires w == From(items, boundary) && i > |items[0].content| && OccursAt(w, CrlfDashBoundary(boundary), i)
    ensures |items| > 1 && i + |From(items[1..], boundary)| + |CRLF| >= |w|
  {
    var (c, d) := (items[0].content, CrlfDashBoundary(boundary));
    DelimiterHasOneCr(boundary);
    if |items| == 1 {
      LastDelimiter(c, boundary, i);
    } else {
      FromSplit(items, boundary);
      SecondDelimiter(c, d, items[1], From(items[1..], boundary), i);
    }
  }

  lemma {:induction false} LastDelimiter(c: string, boundary: string, i: nat)
    requires BoundaryCharsValid(boundary) && i > |c|
    ensures !OccursAt(c + CrlfDashBoundary(boundary) + (DASH + CRLF), CrlfDashBoundary(boundary), i)
  {
    var (d, w) := (CrlfDashBoundary(boundary), c + CrlfDashBoundary(boundary) + (DASH + CRLF));
    if OccursAt(w, d, i) {
      assert w == c + (d + (DASH + CRLF));
      OccursPrefix(w, d, CRLF, i);
      OccursDrop(w, CRLF, |c|, i);
      assert w[|c|..] == d + (DASH + CRLF);
      LastBreak(boundary, i - |c|);
    }
  }

  lemma {:induction false} OccursBehind(a: string, v: string, p: string, i: nat)
    requires i >= |a| && OccursAt(a + v, p, i)
    ensures OccursAt(v, p, i - |a|)
  {
    OccursDrop(a + v, p, |a|, i);
    assert (a + v)[|a|..] == v;
  }

  lemma {:induction false} FieldsBehind(item: Item, more: string, i: nat)
    requires PlainParam(item.name) && PlainParam(item.filename) && !Contains(item.contentType, CRLF)
    requires OccursAt(CRLF + (Fields(item) + more), BREAK_DASH, i)
    ensures i >= |Fields(item)|
  {
    FieldsSplit(item, more);
    LinesArePlain(item);
    assert CRLF + (Fields(item) + more) == "" + CRLF + TwoLines(DispositionLine(item), TypeLine(item), more);
    DashAfterTwo(DispositionLine(item), TypeLine(item), more, i);
  }

  lemma {:induction false} BreakBehind(c: string, d: string, rest: string, i: nat)
    requires BREAK_DASH <= d && forall k :: 0 < k < |d| ==> d[k] != '\r'
    requires i > |c| && OccursAt(c + (d + rest), d, i)
    ensures i >= |c| + |d| && OccursAt(rest, BREAK_DASH, i - |c| - |d|)
  {
    OccursBehind(c, d + rest, d, i);
    OccursPrefix(d + rest, d, BREAK_DASH, i - |c|);
    CrIn(d, rest, i - |c|, BREAK_DASH);
  }

  lemma {:induction false} SecondDelimiter(c: string, d: string, item: Item, more: string, i: nat)
    requires PlainParam(item.name) && PlainParam(item.filename) && !Contains(item.contentType, CRLF)
    requires BREAK_DASH <= d && forall k :: 0 < k < |d| ==> d[k] != '\r'
    requires i > |c| && OccursAt(c + (d + (CRLF + (Fields(item) + more))), d, i)
    ensures i >= |c| + |d| + |Fields(item)|
  {
    BreakBehind(c, d, CRLF + (Fields(item) + more), i);
    FieldsBehind(item, more, i - |c| - |d|);
  }

  /** A content read from inside the written one is shorter than it. */
  lemma {:induction false} LateStart(items: seq<Item>, boundary: string, w: string, gone: nat)
    requires BoundaryCharsValid(boundary) && items != [] && AllCarriable(items, boundary)
    requires w == From(items, boundary) && gone <= |items[0].content|
    ensures Find(w[gone..], CrlfDashBoundary(boundary)) == |items[0].content| - gone
  {
    DelimiterHasOneCr(boundary);
    FindAfterText(items[0].content, CrlfDashBoundary(boundary),
                  if |items| == 1 then DASH + CRLF else CRLF + BodyRest(items[1..], boundary));
    FindDrop(w, CrlfDashBoundary(boundary), gone);
  }

  lemma {:induction false} LateDelimiter(items: seq<Item>, boundary: string, w: string, i: nat, d: string, r: string)
    requires BoundaryCharsValid(boundary) && items != [] && AllCarriable(items, boundary)
    requires d == CrlfDashBoundary(boundary) && w == From(items, boundary)
    requires i > |items[0].content| && OccursAt(w, d, i) && r == w[i + |d|..]
    ensures |items| > 1 && Remains(r, From(items[1..], boundary), 1)
  {
    LaterDelimiter(items, boundary, w, i);
    SuffixOfRest(w, From(items[1..], boundary), items, boundary, i + |d|);
  }

  /** A late content, `c`, ends early, or its delimiter leaves the parser late for the next part. */
  lemma {:induction false} LateContent(items: seq<Item>, boundary: string, x: string, d: string, e: nat, c: string,
                                       r: string)
    requires BoundaryCharsValid(boundary) && items != [] && AllCarriable(items, boundary)
    requires d == CrlfDashBoundary(boundary) && e == Find(x, d) < |x| && Remains(x, From(items, boundary), 1)
    requires c == x[..e] && r == x[e + |d|..]
    ensures c != items[0].content || (|items| > 1 && Remains(r, From(items[1..], boundary), 1))
  {
    var w := From(items, boundary);
    var gone := |w| - |x|;
    if gone <= |items[0].content| {
      LateStart(items, boundary, w, gone);
    } else {
      LateBehind(items, boundary, w, gone, d, e, r);
    }
  }

  lemma {:induction false} LateBehind(items: seq<Item>, boundary: string, w: string, gone: nat, d: string, e: nat,
                                      r: string)
    requires BoundaryCharsValid(boundary) && items != [] && AllCarriable(items, boundary)
    requires d == CrlfDashBoundary(boundary) && w == From(items, boundary) && |items[0].content| < gone <= |w|
    requires OccursAt(w[gone..], d, e) && r == w[gone..][e + |d|..]
    ensures |items| > 1 && Remains(r, From(items[1..], boundary), 1)
  {
    OccursDrop(w, d, gone, gone + e);
    SuffixOfSuffix(w, gone, e + |d|);
    LateDelimiter(items, boundary, w, gone + e, d, r);
  }

  lemma {:induction false} TailOfSum(head: string, v: string, i: nat)
    requires |head| <= i <= |head| + |v|
    ensures (head + v)[i..] == v[i - |head|..]
  {}

  lemma {:induction false} SuffixOfRest(w: string, v: string, items: seq<Item>, boundary: string, i: nat)
    requires |items| > 1 && w == From(items, boundary) && v == From(items[1..], boundary)
    requires i <= |w| && i + |v| >= |w| + 2
    ensures Remains(w[i..], v, 1)
  {
    var head := items[0].content + CrlfDashBoundary(boundary) + (CRLF + Fields(items[1]));
    FromSplit(items, boundary);
    Regroup(CRLF, Fields(items[1]), v);
    Regroup(CrlfDashBoundary(boundary), CRLF + Fields(items[1]), v);
    Regroup(items[0].content, CrlfDashBoundary(boundary) + (CRLF + Fields(items[1])), v);
    Regroup(items[0].content, CrlfDashBoundary(boundary), CRLF + Fields(items[1]));
    TailOfSum(head, v, i);
  }

  // --------------------------------------------------- an opening line found later

  lemma {:induction false} OpeningEnd(w: string, boundary: string, i: nat)
    requires BoundaryCharsValid(boundary) && OccursAt(w, DashBoundaryCrlf(boundary), i)
    ensures var z := i + |DASH| + |boundary|;
            OccursAt(w, CRLF, z) && w[z - 1] != '"' && w[z - 1] != '\n' && z >= 2
  {
    var (d, z) := (DashBoundaryCrlf(boundary), i + |DASH| + |boundary|);
    assert w[i..i + |d|] == d;
    assert w[z..z + |CRLF|] == d[|d| - |CRLF|..] == CRLF;
    assert w[z - 1] == d[z - 1 - i];
    assert boundary != "" ==> d[z - 1 - i] == boundary[|boundary| - 1];
  }

  /** A line break behind a line that ends in a quote. */
  lemma {:induction false} BreakBehindQuote(line: string, t: string, v: string, i: nat)
    requires line != "" && line[|line| - 1] == '"' && !Contains(line, CRLF) && v == line + CRLF + t
    requires OccursAt(v, CRLF, i) && (i > 0 ==> v[i - 1] != '"')
    ensures i >= |line| + 2 && v[|line| + 2..] == t && v[|line| + 1] == '\n' && OccursAt(t, CRLF, i - |line| - 2)
  {
    BreakAfterLine(line, t, i);
    assert v[|line| - 1] == '"';
    OccursDrop(v, CRLF, |line| + 2, i);
    assert v[|line| + 2..] == t;
  }

  lemma {:induction false} BreakBehindBreak(v: string, w: string, z: nat)
    requires w == CRLF + v && z >= 1 && OccursAt(w, CRLF, z)
    ensures z >= 2 && w[2..] == v && OccursAt(v, CRLF, z - 2) && (z > 2 ==> w[z - 1] == v[z - 3])
  {
    assert w[z..z + |CRLF|][0] == w[z] && w[1] == '\n';
    OccursDrop(w, CRLF, 2, z);
    assert w[2..] == v;
  }

  lemma {:induction false} DispositionEndsInQuote(item: Item)
    ensures var line := DispositionLine(item); line != "" && line[|line| - 1] == '"'
  {
    var v := DispositionValue(item);
    assert v != "" && v[|v| - 1] == '"';
  }

  /** Where a line break can stand behind the opening line that is preceded by neither a quote nor a line
      break: at the end of the second line, or behind the fields. */
  lemma {:induction false} BreaksBehindTwo(line: string, second: string, more: string, w: string, z: nat)
    requires line != "" && PlainLine(line) && PlainLine(second) && line[|line| - 1] == '"' && z >= 1
    requires w == CRLF + TwoLines(line, second, more)
    requires OccursAt(w, CRLF, z) && w[z - 1] != '"' && w[z - 1] != '\n'
    ensures var n := |CRLF| + |line| + |CRLF| + |Optional(second)|;
            z > n + |CRLF| || (second != "" && z + |CRLF| == n)
  {
    var t := Optional(second) + (CRLF + more);
    BreakBehindBreak(line + CRLF + t, w, z);
    BreakBehindQuote(line, t, line + CRLF + t, z - 2);
    TailOfFields(line, t, w);
    BreaksBehindLine(second, more, w, |line| + 4, z);
  }

  lemma {:induction false} TailOfFields(line: string, t: string, w: string)
    requires w == CRLF + (line + CRLF + t)
    ensures w[|line| + 4..] == t && w[|line| + 3] == '\n'
  {}

  lemma {:induction false} BreaksBehindLine(second: string, more: string, w: string, k: nat, z: nat)
    requires PlainLine(second) && 2 <= k <= z <= |w| && k + |Optional(second)| + 2 <= |w|
    requires w[k..] == Optional(second) + (CRLF + more) && w[k - 1] == '\n'
    requires OccursAt(w[k..], CRLF, z - k) && w[z - 1] != '\n'
    ensures z > k + |Optional(second)| + 2 || (second != "" && z == k + |Optional(second)| - 2)
  {
    var n := |Optional(second)|;
    if second != "" {
      assert w[k..] == second + CRLF + (CRLF + more);
      BreakAfterLine(second, CRLF + more, z - k);
      assert w[k + n - 1] == w[k..][n - 1] == '\n';
    }
    assert w[k + n] == w[k..][n] == '\r' && w[k + n + 1] == w[k..][n + 1] == '\n';
    assert w[k..][z - k..z - k + |CRLF|][0] == w[z];
  }

  lemma {:induction false} BreaksBehindOpening(item: Item, more: string, w: string, z: nat)
    requires PlainParam(item.name) && PlainParam(item.filename) && !Contains(item.contentType, CRLF) && z >= 1
    requires w == CRLF + (Fields(item) + more) && OccursAt(w, CRLF, z) && w[z - 1] != '"' && w[z - 1] != '\n'
    ensures z > |CRLF| + |Fields(item)| || (item.contentType != "" && z + |CRLF| == |Fields(item)|)
  {
    LinesArePlain(item);
    FieldsSplit(item, more);
    DispositionEndsInQuote(item);
    BreaksBehindTwo(DispositionLine(item), TypeLine(item), more, w, z);
  }

  /** Late for the first of `items`, and inside or behind its content: no break is left for the last of all
      when it has no content. */
  predicate Behind(r: string, items: seq<Item>, boundary: string)
    requires items != []
  {
    Remains(r, From(items, boundary), 3) && (|items| == 1 && items[0].content == "" ==> r == "")
  }

  lemma {:induction false} BehindRest(r: string, items: seq<Item>, boundary: string, i: nat)
    requires items != [] && Behind(r, items, boundary) && i <= |r|
    ensures Behind(r[i..], items, boundary)
  {
    RemainsOfRest(r, From(items, boundary), 3, i);
  }

  /** A late line break. */
  lemma {:induction false} BehindBreak(r: string, items: seq<Item>, boundary: string, k: nat)
    requires BoundaryCharsValid(boundary) && items != [] && k >= 1
    requires Remains(r, From(items, boundary), k) && OccursAt(r, CRLF, 0)
    ensures Behind(r[|CRLF|..], items, boundary)
  {
    var w := From(items, boundary);
    RemainsOfRest(r, w, k, |CRLF|);
    if |items| == 1 && items[0].content == "" {
      assert w == CrlfDashBoundary(boundary) + (DASH + CRLF);
      OccursDrop(w, CRLF, |w| - |r|, |w| - |r|);
      LastBreak(boundary, |w| - |r|);
    }
  }

  /** The state of the parser behind an opening line found late: inside or behind the first content, or at
      the empty line that ends the fields of the first part, when their last line ends like an opening line. */
  predicate LateEntry(r: string, items: seq<Item>, boundary: string)
    requires items != []
  {
    || Behind(r, items, boundary)
    || (items[0].contentType != "" && r == CRLF + From(items, boundary))
  }

  lemma {:induction false} EntryAt(items: seq<Item>, boundary: string, v: string, i: nat)
    requires BoundaryCharsValid(boundary) && items != [] && AllCarriable(items, boundary) && i >= 1
    requires v == CRLF + (Fields(items[0]) + From(items, boundary))
    requires OccursAt(v, CRLF, i) && v[i - 1] != '"' && v[i - 1] != '\n'
    ensures LateEntry(v[i + |CRLF|..], items, boundary)
  {
    BreaksBehindOpening(items[0], From(items, boundary), v, i);
    if i > |CRLF| + |Fields(items[0])| {
      EntryInContent(items, boundary, v, i);
    } else {
      EntryBeforeContent(items[0], From(items, boundary), v, i);
    }
  }

  lemma {:induction false} OpeningSplit(items: seq<Item>, boundary: string)
    requires items != []
    ensures Serialize(items, boundary) == (DASH + boundary) + (CRLF + (Fields(items[0]) + From(items, boundary)))
  {
    SerializeIsRest(items, boundary);
    assert BodyRest(items, boundary) == Fields(items[0]) + From(items, boundary);
    Regroup(DASH + boundary, CRLF, BodyRest(items, boundary));
  }

  /** An opening line in `a + v`, where `a` is one without its line break. */
  lemma {:induction false} ShiftedOpening(w: string, a: string, v: string, boundary: string, d: string, i: nat)
    requires BoundaryCharsValid(boundary) && a == DASH + boundary && d == DashBoundaryCrlf(boundary)
    requires w == a + v && i >= 1 && OccursAt(w, d, i)
    ensures OccursAt(v, CRLF, i) && v[i - 1] != '"' && v[i - 1] != '\n'
    ensures i + |d| <= |w| && w[i + |d|..] == v[i + |CRLF|..]
  {
    OpeningEnd(w, boundary, i);
    TailAt(w, a, v, i);
    OccursDrop(w, CRLF, |a|, i + |a|);
    SuffixOfSuffix(w, |a|, i + |CRLF|);
  }

  lemma {:induction false} TailAt(w: string, a: string, v: string, i: nat)
    requires w == a + v && 1 <= i <= |v|
    ensures w[|a|..] == v && v[i - 1] == w[i + |a| - 1]
  {}

  lemma {:induction false} LateOpening(items: seq<Item>, boundary: string, w: string, i: nat, d: string, r: string)
    requires BoundaryCharsValid(boundary) && items != [] && AllCarriable(items, boundary)
    requires w == Serialize(items, boundary) && d == DashBoundaryCrlf(boundary) && i >= 1 && OccursAt(w, d, i)
    requires r == w[i + |d|..]
    ensures LateEntry(r, items, boundary)
  {
    var v := CRLF + (Fields(items[0]) + From(items, boundary));
    OpeningSplit(items, boundary);
    ShiftedOpening(w, DASH + boundary, v, boundary, d, i);
    EntryAt(items, boundary, v, i);
  }

  lemma {:induction false} RemainsBehind(fields: string, more: string, v: string, i: nat, r: string)
    requires v == CRLF + (fields + more) && OccursAt(v, CRLF, i) && i > |CRLF| + |fields| && r == v[i..]
    ensures Remains(r, more, i - |CRLF| - |fields|) && OccursAt(r, CRLF, 0)
  {
    var h := |CRLF| + |fields|;
    assert v[h..] == more;
    SuffixOfSuffix(v, h, i - h);
    OccursDrop(v, CRLF, i, i);
  }

  lemma {:induction false} EntryInContent(items: seq<Item>, boundary: string, v: string, i: nat)
    requires BoundaryCharsValid(boundary) && items != []
    requires v == CRLF + (Fields(items[0]) + From(items, boundary)) && OccursAt(v, CRLF, i)
    requires i > |CRLF| + |Fields(items[0])|
    ensures Behind(v[i + |CRLF|..], items, boundary)
  {
    RemainsBehind(Fields(items[0]), From(items, boundary), v, i, v[i..]);
    BehindBreak(v[i..], items, boundary, i - |CRLF| - |Fields(items[0])|);
    SuffixOfSuffix(v, i, |CRLF|);
  }

  lemma {:induction false} EntryBeforeContent(item: Item, more: string, v: string, i: nat)
    requires v == CRLF + (Fields(item) + more) && i + |CRLF| == |Fields(item)|
    ensures v[i + |CRLF|..] == CRLF + more
  {
    var f := Fields(item);
    assert f[|f| - |CRLF|..] == CRLF;
    assert v[i + |CRLF|..] == f[|f| - |CRLF|..] + more;
  }

  // ------------------------------------------------------------ staying late

  /** Some part is not what it should be, and no callback can mend that; the content of the last one may
      still grow when `open`. */
  predicate Wrong(parts: seq<Part>, open: bool, items: seq<Item>) {
    || |parts| > |items|
    || (exists t :: 0 <= t < |parts| && !(parts[t].file == FileOf(items[t]) &&
                                          (parts[t].content == items[t].content || (open && t == |parts| - 1))))
  }

  lemma {:induction false} WrongIsWrong(parts: seq<Part>, open: bool, items: seq<Item>)
    requires Wrong(parts, open, items)
    ensures parts != PartsOf(items)
  {}

  lemma {:induction false} WrongStays(parts: seq<Part>, open: bool, items: seq<Item>, e: Event)
    requires Wrong(parts, open, items) && (open <==> e.Content?)
    ensures Wrong(AddEvent(parts, e), false, items) && Wrong(AddEvent(parts, e), true, items)
  {
    var next := AddEvent(parts, e);
    if |parts| <= |items| < |next| {
    } else if |parts| <= |items| {
      var t :| 0 <= t < |parts| && !(parts[t].file == FileOf(items[t]) &&
                                     (parts[t].content == items[t].content || (open && t == |parts| - 1)));
      assert next[t].file == parts[t].file;
    }
  }

  /** Nothing is wrong so far, but the parser is late: `r` is all it has yet to read, `parts` what it has
      reported. */
  predicate Late(phase: Phase, file: FileInfo, parts: seq<Part>, r: string, items: seq<Item>, boundary: string) {
    var m := |parts|;
    match phase
    case OpeningBoundary => m == 0 && Remains(r, Serialize(items, boundary), 1)
    case AfterBoundary => m < |items| && Remains(r, From(items[m..], boundary), 1)
    case NewEntry => m < |items| && (Behind(r, items[m..], boundary) || (m == 0 && LateEntry(r, items, boundary)))
    case Headers =>
      m < |items| &&
      (Behind(r, items[m..], boundary) || (m == 0 && file == NO_FILE && LateEntry(r, items, boundary)))
    case Body => 0 < m <= |items| && LateBody(parts[m - 1].content, r, items[m - 1..], boundary)
  }

  /** Inside a late content, of which `done` is reported: its delimiter is yet to come. */
  predicate LateBody(done: string, r: string, items: seq<Item>, boundary: string)
    requires items != []
  {
    var d := CrlfDashBoundary(boundary);
    && Remains(done + r, From(items, boundary), 5) && Find(done + r, d) >= |done|
    && (done != "" ==> |r| >= |d|) && !(|items| == 1 && items[0].content == "")
  }

  predicate LateOrWrong(p: PState, rest: string, items: seq<Item>) {
    || Wrong(Parts(p.log), p.phase == Body, items)
    || Late(p.phase, p.file, Parts(p.log), p.window + rest, items, p.boundary)
  }

  /** Late or wrong, the items are not delivered. */
  lemma {:induction false} LateIsWrong(p: PState, rest: string, items: seq<Item>)
    requires LateOrWrong(p, rest, items) && items != []
    ensures Parts(p.log) != PartsOf(items)
  {
    var parts := Parts(p.log);
    if Wrong(parts, p.phase == Body, items) {
      WrongIsWrong(parts, p.phase == Body, items);
    } else if |parts| == |items| {
      var m := |parts|;
      assert p.phase == Body;
      LastBodyIsShort(parts[m - 1].content, p.window + rest, items[m - 1..], p.boundary);
      assert PartsOf(items)[m - 1].content == items[m - 1..][0].content;
    }
  }

  lemma {:induction false} LastBodyIsShort(done: string, r: string, items: seq<Item>, boundary: string)
    requires |items| == 1 && LateBody(done, r, items, boundary)
    ensures done != items[0].content
  {}

  // ---------------------------------------------------------- round by round

  lemma {:induction false} QuietRound(p: PState, inLines: bool, accept: Receiver)
    requires p.window != "" && p.phase != Body && (p.phase == Headers ==> !inLines)
    ensures var q := Target(Round(p, inLines, accept)); q.log == p.log && q.phase != Body
  {}

  lemma {:induction false} LineEvents(p: PState, parsed: (FileInfo, bool), accept: Receiver)
    requires Accepts(accept) && p.phase == Headers
    ensures var q := Target(RoundParsedLine(p, parsed, accept));
            || (q.log == p.log && q.phase == Headers)
            || (q.log == p.log + [Header(p.file)] && q.phase == Body)
  {}

  lemma {:induction false} WrongLine(p: PState, parsed: (FileInfo, bool), items: seq<Item>, accept: Receiver)
    requires Accepts(accept) && p.phase == Headers && Wrong(Parts(p.log), false, items)
    ensures var q := Target(RoundParsedLine(p, parsed, accept)); Wrong(Parts(q.log), q.phase == Body, items)
  {
    LineEvents(p, parsed, accept);
    PartsSnoc(p.log, Header(p.file));
    WrongStays(Parts(p.log), false, items, Header(p.file));
  }

  lemma {:induction false} WrongRound(p: PState, inLines: bool, items: seq<Item>, accept: Receiver)
    requires Accepts(accept) && p.window != "" && Wrong(Parts(p.log), p.phase == Body, items)
    ensures var q := Target(Round(p, inLines, accept)); Wrong(Parts(q.log), q.phase == Body, items)
  {
    if p.phase == Body {
      WrongBody(p, CrlfDashBoundary(p.boundary), items, accept);
    } else if p.phase == Headers && inLines {
      WrongLine(p, HeaderLine(p.file, p.window[..Find(p.window, CRLF)]), items, accept);
    } else {
      QuietRound(p, inLines, accept);
    }
  }

  lemma {:induction false} WrongBody(p: PState, d: string, items: seq<Item>, accept: Receiver)
    requires Accepts(accept) && p.phase == Body && d != "" && Wrong(Parts(p.log), true, items)
    ensures var q := Target(RoundBodyUpTo(p, d, accept)); Wrong(Parts(q.log), q.phase == Body, items)
  {
    var q := Target(RoundBodyUpTo(p, d, accept));
    if q != p {
      var e := q.log[|q.log| - 1];
      PartsSnoc(p.log, e);
      WrongStays(Parts(p.log), true, items, e);
    }
  }

  lemma {:induction false} OpeningInRest(all: string, w: string, rest: string, d: string) returns (i: nat)
    requires d != "" && Find(w, d) < |w| && Remains(w + rest, all, 1)
    ensures i >= 1 && OccursAt(all, d, i) && all[i + |d|..] == w[Find(w, d) + |d|..] + rest
  {
    var (gone, pos) := (|all| - |w + rest|, Find(w, d));
    i := gone + pos;
    CutAppend(w, rest, d);
    OccursAppend(w, rest, d, pos);
    OccursDrop(all, d, gone, i);
    SuffixOfSuffix(all, gone, pos + |d|);
  }

  lemma {:induction false} OpeningMiss(p: PState, d: string)
    requires d != "" && Find(p.window, d) == |p.window|
    ensures RoundOpeningAt(p, d) == Return(p.(window := ""), true)
  {}

  lemma {:induction false} EntryIsLate(q: PState, rest: string, items: seq<Item>)
    requires items != [] && q.phase == NewEntry && Parts(q.log) == [] && LateEntry(q.window + rest, items, q.boundary)
    ensures LateOrWrong(q, rest, items)
  {}

  lemma {:induction false} DroppedIsLate(p: PState, rest: string, items: seq<Item>, all: string, q: PState)
    requires p.phase == OpeningBoundary && Parts(p.log) == [] && q == p.(window := "")
    requires all == Serialize(items, p.boundary) && Remains(p.window + rest, all, 1)
    ensures LateOrWrong(q, rest, items)
  {
    RemainsOfRest(p.window + rest, all, 1, |p.window|);
    assert (p.window + rest)[|p.window|..] == "" + rest;
  }

  lemma {:induction false} FoundIsLate(p: PState, rest: string, items: seq<Item>, d: string, r: string)
    requires d != "" && Find(p.window, d) < |p.window| && items != [] && Parts(p.log) == []
    requires r == p.window[Find(p.window, d) + |d|..] + rest && LateEntry(r, items, p.boundary)
    ensures LateOrWrong(Target(RoundOpeningAt(p, d)), rest, items)
  {
    OpeningHit(p, d);
    EntryIsLate(p.(window := p.window[Find(p.window, d) + |d|..], phase := NewEntry), rest, items);
  }

  lemma {:induction false} EntryInRest(items: seq<Item>, boundary: string, all: string, w: string, rest: string,
                                       d: string, r: string)
    requires BoundaryCharsValid(boundary) && items != [] && AllCarriable(items, boundary)
    requires all == Serialize(items, boundary) && d == DashBoundaryCrlf(boundary) && Find(w, d) < |w|
    requires Remains(w + rest, all, 1) && r == w[Find(w, d) + |d|..] + rest
    ensures LateEntry(r, items, boundary)
  {
    var i := OpeningInRest(all, w, rest, d);
    LateOpening(items, boundary, all, i, d, r);
  }

  lemma {:induction false} MissIsLate(p: PState, rest: string, items: seq<Item>, all: string, d: string)
    requires p.phase == OpeningBoundary && d != "" && Find(p.window, d) == |p.window|
    requires Parts(p.log) == [] && all == Serialize(items, p.boundary) && Remains(p.window + rest, all, 1)
    ensures LateOrWrong(Target(RoundOpeningAt(p, d)), rest, items)
  {
    OpeningMiss(p, d);
    DroppedIsLate(p, rest, items, all, p.(window := ""));
  }

  lemma {:induction false} LateAtOpening(p: PState, rest: string, items: seq<Item>, all: string, d: string)
    requires BoundaryCharsValid(p.boundary) && items != [] && AllCarriable(items, p.boundary)
    requires p.phase == OpeningBoundary && d == DashBoundaryCrlf(p.boundary)
    requires Parts(p.log) == [] && all == Serialize(items, p.boundary) && Remains(p.window + rest, all, 1)
    ensures LateOrWrong(Target(RoundOpeningAt(p, d)), rest, items)
  {
    if Find(p.window, d) < |p.window| {
      var r := p.window[Find(p.window, d) + |d|..] + rest;
      EntryInRest(items, p.boundary, all, p.window, rest, d, r);
      FoundIsLate(p, rest, items, d, r);
    } else {
      MissIsLate(p, rest, items, all, d);
    }
  }

  lemma {:induction false} LateAtNewEntry(p: PState, rest: string, items: seq<Item>)
    requires p.phase == NewEntry && Late(p.phase, p.file, Parts(p.log), p.window + rest, items, p.boundary)
    ensures LateOrWrong(p.(file := NO_FILE, phase := Headers), rest, items)
  {}

  lemma {:induction false} LateAtBoundary(p: PState, rest: string, items: seq<Item>)
    requires BoundaryCharsValid(p.boundary) && p.phase == AfterBoundary
    requires Late(p.phase, p.file, Parts(p.log), p.window + rest, items, p.boundary)
    ensures LateOrWrong(Target(RoundAfterBoundary(p)), rest, items)
  {
    var (w, r, m) := (p.window, p.window + rest, |Parts(p.log)|);
    if StartsWith(w, CRLF) {
      OccursAtZero(w, CRLF);
      OccursAppend(w, rest, CRLF, 0);
      BehindBreak(r, items[m..], p.boundary, 1);
      RemainsTail(w, rest, |CRLF|);
    } else if StartsWith(w, DASH) {
      RemainsOfRest(r, From(items[m..], p.boundary), 1, |w|);
      assert r[|w|..] == "" + rest;
    }
  }

  lemma {:induction false} LateContentBegins(w: string, rest: string, items: seq<Item>, boundary: string)
    requires items != [] && Behind(w + rest, items, boundary) && |w| >= |CRLF|
    ensures LateBody("", w[|CRLF|..] + rest, items, boundary)
  {
    RemainsTail(w, rest, |CRLF|);
    RemainsOfRest(w + rest, From(items, boundary), 3, |CRLF|);
    assert "" + (w[|CRLF|..] + rest) == w[|CRLF|..] + rest;
  }

  lemma {:induction false} HeaderAddsPart(log: seq<Event>, file: FileInfo)
    ensures Parts(log + [Header(file)]) == Parts(log) + [Part(file, "")]
  {
    PartsSnoc(log, Header(file));
  }

  lemma {:induction false} LateAtEmptyLine(p: PState, rest: string, items: seq<Item>, m: nat, q: PState)
    requires m == |Parts(p.log)| < |items| && |p.window| >= |CRLF|
    requires Behind(p.window + rest, items[m..], p.boundary)
    requires q == p.(window := p.window[|CRLF|..], phase := Body, log := p.log + [Header(p.file)])
    ensures LateOrWrong(q, rest, items)
  {
    HeaderAddsPart(p.log, p.file);
    LateContentBegins(p.window, rest, items[m..], p.boundary);
  }

  lemma {:induction false} LateAtField(p: PState, rest: string, items: seq<Item>, m: nat, file: FileInfo, k: nat,
                                       q: PState)
    requires p.phase == Headers && m == |Parts(p.log)| < |items| && k <= |p.window|
    requires Behind(p.window + rest, items[m..], p.boundary) && q == p.(file := file, window := p.window[k..])
    ensures LateOrWrong(q, rest, items) && LateOrWrong(p.(file := file, valid := false), rest, items)
  {
    RemainsTail(p.window, rest, k);
    BehindRest(p.window + rest, items[m..], p.boundary, k);
  }

  lemma {:induction false} EmptyLineResult(p: PState, parsed: (FileInfo, bool), accept: Receiver, q: PState)
    requires Accepts(accept) && Find(p.window, CRLF) == 0 < |p.window|
    requires q == p.(window := p.window[|CRLF|..], phase := Body, log := p.log + [Header(p.file)])
    ensures RoundParsedLine(p, parsed, accept) == Continue(q, false)
  {}

  lemma {:induction false} FieldResult(p: PState, parsed: (FileInfo, bool), accept: Receiver, q: PState)
    requires 0 < Find(p.window, CRLF) < |p.window|
    requires q == p.(file := parsed.0, window := p.window[Find(p.window, CRLF) + |CRLF|..])
    ensures RoundParsedLine(p, parsed, accept)
         == if parsed.1 then Continue(q, true) else Return(p.(file := parsed.0, valid := false), false)
  {}

  /** A line that is read late: one more of the fields, or the empty one. */
  lemma {:induction false} LateAtLine(p: PState, parsed: (FileInfo, bool), rest: string, items: seq<Item>, m: nat,
                                      accept: Receiver)
    requires Accepts(accept) && p.phase == Headers && m == |Parts(p.log)| < |items| && p.window != ""
    requires LateOrWrong(p, rest, items) && Behind(p.window + rest, items[m..], p.boundary)
    ensures LateOrWrong(Target(RoundParsedLine(p, parsed, accept)), rest, items)
  {
    var pos := Find(p.window, CRLF);
    if pos == 0 {
      var q := p.(window := p.window[|CRLF|..], phase := Body, log := p.log + [Header(p.file)]);
      EmptyLineResult(p, parsed, accept, q);
      LateAtEmptyLine(p, rest, items, m, q);
    } else if pos < |p.window| {
      var q := p.(file := parsed.0, window := p.window[pos + |CRLF|..]);
      FieldResult(p, parsed, accept, q);
      LateAtField(p, rest, items, m, parsed.0, pos + |CRLF|, q);
    }
  }

  /** The empty line behind a type line that ended like an opening line: a part without a type is reported. */
  lemma {:induction false} LateAtBlank(p: PState, parsed: (FileInfo, bool), rest: string, items: seq<Item>,
                                       accept: Receiver)
    requires Accepts(accept) && p.phase == Headers && p.file == NO_FILE && Parts(p.log) == [] && items != []
    requires items[0].contentType != "" && p.window + rest == CRLF + From(items, p.boundary) && p.window != ""
    ensures LateOrWrong(Target(RoundParsedLine(p, parsed, accept)), rest, items)
  {
    var (w, pos) := (p.window, Find(p.window, CRLF));
    if |w| >= 2 {
      assert w[0..2] == (w + rest)[..2] == CRLF;
      assert OccursAt(w, CRLF, 0);
      PartsSnoc(p.log, Header(NO_FILE));
      assert AddEvent([], Header(NO_FILE))[0].file != FileOf(items[0]);
    }
  }

  // the strings of a content that is read late: `x` is it and all that follows

  lemma {:induction false} LateHit(done: string, w: string, rest: string, d: string, x: string)
    requires d != "" && Find(w, d) < |w| && x == done + (w + rest) && Find(x, d) >= |done|
    ensures var e := |done| + Find(w, d);
            Find(x, d) == e && x[..e] == done + w[..Find(w, d)] && x[e + |d|..] == w[Find(w, d) + |d|..] + rest
  {
    FindDrop(x, d, |done|);
    assert x[|done|..] == w + rest;
    CutAppend(w, rest, d);
    SuffixOfSuffix(x, |done|, Find(w, d) + |d|);
    assert x[..|done| + Find(w, d)] == done + (w + rest)[..Find(w, d)];
  }

  lemma {:induction false} LateMiss(done: string, w: string, rest: string, d: string, x: string, k: nat)
    requires d != "" && Find(w, d) == |w| && k + |d| == |w| && x == done + (w + rest) && Find(x, d) >= |done|
    ensures (done + w[..k]) + (w[k..] + rest) == x && Find(x, d) >= |done| + k
  {
    FindDrop(x, d, |done|);
    assert x[|done|..] == w + rest;
    FindAppendMiss(w, rest, d);
    assert w[..k] + (w[k..] + rest) == w + rest;
    Regroup(done, w[..k], w[k..] + rest);
  }

  lemma {:induction false} LastGrows(parts: seq<Part>, data: string)
    requires parts != []
    ensures var next := AddEvent(parts, Content(data));
            |next| == |parts| && next[|parts| - 1].content == parts[|parts| - 1].content + data
  {}

  lemma {:induction false} ContentGrows(p: PState, data: string, q: PState)
    requires Parts(p.log) != [] && q.log == p.log + [Content(data)]
    ensures var (parts, next) := (Parts(p.log), Parts(q.log));
            |next| == |parts| && next[|parts| - 1].content == parts[|parts| - 1].content + data
  {
    PartsSnoc(p.log, Content(data));
    LastGrows(Parts(p.log), data);
  }

  lemma {:induction false} HitResult(p: PState, d: string, accept: Receiver, q: PState)
    requires Accepts(accept) && d != "" && Find(p.window, d) < |p.window|
    requires q == p.(window := p.window[Find(p.window, d) + |d|..], phase := AfterBoundary,
                     log := p.log + [Content(p.window[..Find(p.window, d)])])
    ensures RoundBodyUpTo(p, d, accept) == Continue(q, false)
  {}

  /** The content is complete: `c` is all of it, and `r` what is left to read. */
  lemma {:induction false} LateBodyEnds(done: string, w: string, rest: string, items: seq<Item>, boundary: string,
                                        d: string, x: string, c: string, r: string)
    requires BoundaryCharsValid(boundary) && items != [] && AllCarriable(items, boundary)
    requires d == CrlfDashBoundary(boundary) && Find(w, d) < |w|
    requires x == done + (w + rest) && Find(x, d) >= |done| && Remains(x, From(items, boundary), 1)
    requires c == done + w[..Find(w, d)] && r == w[Find(w, d) + |d|..] + rest
    ensures c != items[0].content || (|items| > 1 && Remains(r, From(items[1..], boundary), 1))
  {
    var e := |done| + Find(w, d);
    LateHit(done, w, rest, d, x);
    LateContent(items, boundary, x, d, e, c, r);
  }

  lemma {:induction false} EndedIsLate(q: PState, rest: string, items: seq<Item>, m: nat, r: string)
    requires q.phase == AfterBoundary && r == q.window + rest && 0 < m == |Parts(q.log)| <= |items|
    requires Parts(q.log)[m - 1].content != items[m - 1].content
             || (m < |items| && Remains(r, From(items[m..], q.boundary), 1))
    ensures LateOrWrong(q, rest, items)
  {}

  lemma {:induction false} DropLast(items: seq<Item>, m: nat)
    requires 0 < m <= |items|
    ensures items[m - 1..][1..] == items[m..] && items[m - 1..][0] == items[m - 1]
  {}

  lemma {:induction false} LateAtDelimiter(p: PState, rest: string, items: seq<Item>, m: nat, d: string,
                                           accept: Receiver)
    requires BoundaryCharsValid(p.boundary) && AllCarriable(items, p.boundary) && Accepts(accept)
    requires p.phase == Body && d == CrlfDashBoundary(p.boundary) && Find(p.window, d) < |p.window|
    requires 0 < |Parts(p.log)| == m <= |items|
    requires LateBody(Parts(p.log)[m - 1].content, p.window + rest, items[m - 1..], p.boundary)
    ensures LateOrWrong(Target(RoundBodyUpTo(p, d, accept)), rest, items)
  {
    var (done, data) := (Parts(p.log)[m - 1].content, p.window[..Find(p.window, d)]);
    var q := p.(window := p.window[Find(p.window, d) + |d|..], phase := AfterBoundary, log := p.log + [Content(data)]);
    HitResult(p, d, accept, q);
    ContentGrows(p, data, q);
    LateBodyEnds(done, p.window, rest, items[m - 1..], p.boundary, d, done + (p.window + rest), done + data,
                 q.window + rest);
    DropLast(items, m);
    EndedIsLate(q, rest, items, m, q.window + rest);
  }

  lemma {:induction false} LateBodyStays(done: string, w: string, rest: string, items: seq<Item>, boundary: string,
                                         k: nat)
    requires items != [] && LateBody(done, w + rest, items, boundary) && k + |CrlfDashBoundary(boundary)| == |w|
    requires Find(w, CrlfDashBoundary(boundary)) == |w|
    ensures LateBody(done + w[..k], w[k..] + rest, items, boundary)
  {
    LateMiss(done, w, rest, CrlfDashBoundary(boundary), done + (w + rest), k);
  }

  lemma {:induction false} LateAtContent(p: PState, rest: string, items: seq<Item>, m: nat, d: string,
                                         accept: Receiver)
    requires Accepts(accept) && p.phase == Body && d == CrlfDashBoundary(p.boundary)
    requires Find(p.window, d) == |p.window| > |d| && 0 < |Parts(p.log)| == m <= |items|
    requires LateBody(Parts(p.log)[m - 1].content, p.window + rest, items[m - 1..], p.boundary)
    ensures LateOrWrong(Target(RoundBodyUpTo(p, d, accept)), rest, items)
  {
    var k := |p.window| - |d|;
    var q := p.(window := p.window[k..], log := p.log + [Content(p.window[..k])]);
    MissResult(p, d, accept);
    ContentGrows(p, p.window[..k], q);
    LateBodyStays(Parts(p.log)[m - 1].content, p.window, rest, items[m - 1..], p.boundary, k);
  }

  lemma {:induction false} WaitResult(p: PState, d: string, accept: Receiver)
    requires d != "" && Find(p.window, d) == |p.window| <= |d|
    ensures RoundBodyUpTo(p, d, accept) == Return(p, true)
  {}

  lemma {:induction false} LateAtBody(p: PState, rest: string, items: seq<Item>, d: string, accept: Receiver)
    requires BoundaryCharsValid(p.boundary) && AllCarriable(items, p.boundary) && Accepts(accept)
    requires p.phase == Body && d == CrlfDashBoundary(p.boundary)
    requires Late(p.phase, p.file, Parts(p.log), p.window + rest, items, p.boundary)
    ensures LateOrWrong(Target(RoundBodyUpTo(p, d, accept)), rest, items)
  {
    if Find(p.window, d) < |p.window| {
      LateAtDelimiter(p, rest, items, |Parts(p.log)|, d, accept);
    } else if |p.window| > |d| {
      LateAtContent(p, rest, items, |Parts(p.log)|, d, accept);
    } else {
      WaitResult(p, d, accept);
    }
  }

  /** No round of the parser makes up for a late start. */
  lemma {:induction false} LateRound(p: PState, inLines: bool, rest: string, items: seq<Item>, accept: Receiver)
    requires BoundaryCharsValid(p.boundary) && items != [] && AllCarriable(items, p.boundary) && Accepts(accept)
    requires p.window != "" && LateOrWrong(p, rest, items)
    ensures LateOrWrong(Target(Round(p, inLines, accept)), rest, items)
  {
    if Wrong(Parts(p.log), p.phase == Body, items) {
      WrongRound(p, inLines, items, accept);
    } else {
      match p.phase
      case OpeningBoundary => LateAtOpening(p, rest, items, Serialize(items, p.boundary), DashBoundaryCrlf(p.boundary));
      case NewEntry => LateAtNewEntry(p, rest, items);
      case Headers => if inLines { LateAtHeaders(p, rest, items, accept); }
      case Body => LateAtBody(p, rest, items, CrlfDashBoundary(p.boundary), accept);
      case AfterBoundary => LateAtBoundary(p, rest, items);
    }
  }

  lemma {:induction false} LateAtHeaders(p: PState, rest: string, items: seq<Item>, accept: Receiver)
    requires Accepts(accept) && p.phase == Headers && p.window != "" && items != []
    requires Late(p.phase, p.file, Parts(p.log), p.window + rest, items, p.boundary)
    ensures LateOrWrong(Target(RoundHeaderLine(p, accept)), rest, items)
  {
    var parsed := HeaderLine(p.file, p.window[..Find(p.window, CRLF)]);
    var m := |Parts(p.log)|;
    if Behind(p.window + rest, items[m..], p.boundary) {
      LateAtLine(p, parsed, rest, items, m, accept);
    } else {
      assert m == 0 && items[0..] == items && Parts(p.log) == [];
      LateAtBlank(p, parsed, rest, items, accept);
    }
  }

  lemma {:induction false} LateRun(p: PState, inLines: bool, rest: string, items: seq<Item>, accept: Receiver)
    requires BoundaryCharsValid(p.boundary) && items != [] && AllCarriable(items, p.boundary) && Accepts(accept)
    requires LateOrWrong(p, rest, items)
    ensures var q := Run(p, inLines, accept).p; LateOrWrong(q, rest, items) && q.boundary == p.boundary
    decreases |p.window|, Rank(p, inLines)
  {
    if p.window != "" {
      LateRound(p, inLines, rest, items, accept);
      RoundKeepsBoundary(p, inLines, accept);
      match Round(p, inLines, accept)
      case Return(_, _) =>
      case Continue(q, lines) => LateRun(q, lines, rest, items, accept);
    }
  }

  lemma {:induction false} RoundKeepsBoundary(p: PState, inLines: bool, accept: Receiver)
    requires p.window != ""
    ensures Target(Round(p, inLines, accept)).boundary == p.boundary
  {}

  lemma {:induction false} LateFeeds(p: PState, pieces: seq<string>, items: seq<Item>, accept: Receiver)
    requires BoundaryCharsValid(p.boundary) && items != [] && AllCarriable(items, p.boundary) && Accepts(accept)
    requires LateOrWrong(p, Concat(pieces), items)
    ensures Parts(FeedAll(p, pieces, accept).p.log) != PartsOf(items)
    decreases |pieces|
  {
    if pieces == [] {
      LateIsWrong(p, "", items);
    } else {
      var (a, rest) := (pieces[0], Concat(pieces[1..]));
      Regroup(p.window, a, rest);
      LateRun(Append(p, a), false, rest, items, accept);
      var first := Feed(p, a, accept);
      if first.ok {
        LateFeeds(first.p, pieces[1..], items, accept);
      } else {
        LateIsWrong(first.p, rest, items);
      }
    }
  }

  lemma {:induction false} DroppedFirst(a: string, rest: string, all: string)
    requires all == a + rest && a != ""
    ensures Remains(rest, all, 1)
  {
    assert all[|a|..] == rest;
  }

  /** A body whose first piece, not empty, is shorter than the opening delimiter line: the items are not
      delivered, however the rest is cut. */
  lemma {:induction false} CutOpeningNeverDelivers(items: seq<Item>, boundary: string, pieces: seq<string>,
                                                   accept: Receiver)
    requires Accepts(accept) && BoundaryCharsValid(boundary) && items != [] && AllCarriable(items, boundary)
    requires pieces != [] && Concat(pieces) == Serialize(items, boundary)
    requires 0 < |pieces[0]| < |DashBoundaryCrlf(boundary)|
    ensures Parts(FeedAll(Start(boundary), pieces, accept).p.log) != PartsOf(items)
  {
    var (d, rest) := (DashBoundaryCrlf(boundary), Concat(pieces[1..]));
    assert Find(pieces[0], d) == |pieces[0]|;
    assert pieces == [pieces[0]] + pieces[1..];
    MissingOpeningIsDropped(boundary, pieces[0], pieces[1..], accept);
    DroppedFirst(pieces[0], rest, Serialize(items, boundary));
    assert "" + rest == rest;
    LateFeeds(Start(boundary), pieces[1..], items, accept);
  }

  /** A serialized body in non-empty pieces: exactly when the first piece holds the whole opening delimiter
      line, the receiver gets exactly the serialized parts. */
  lemma {:induction false} RoundTripInPiecesExactly(items: seq<Item>, boundary: string, pieces: seq<string>,
                                                    accept: Receiver)
    requires Accepts(accept) && BoundaryCharsValid(boundary) && items != []
    requires AllCarriable(items, boundary) && AllShort(items)
    requires Concat(pieces) == Serialize(items, boundary)
    requires forall i :: 0 <= i < |pieces| ==> pieces[i] != ""
    ensures var o := FeedAll(Start(boundary), pieces, accept);
            o.ok && o.p.valid && Parts(o.p.log) == PartsOf(items) <==>
            pieces != [] && |pieces[0]| >= |DashBoundaryCrlf(boundary)|
  {
    SerializeIsRest(items, boundary);
    if |pieces[0]| >= |DashBoundaryCrlf(boundary)| {
      RoundTripInPieces(items, boundary, pieces, accept);
    } else {
      CutOpeningNeverDelivers(items, boundary, pieces, accept);
    }
  }
}
