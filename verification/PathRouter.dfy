/** `PathParamsMatcher` of httplib.h: route patterns with `:name` captures.

    The constructor cuts a pattern into static fragments and parameter names; `match` walks a request path
    along them. `MatchIsFilling` says exactly which paths match and with which captures, in terms of the
    pattern text. */
module PathRouter {
  import opened Wrappers
  import opened Bytes

  const MARKER := ":"
  const SEPARATOR := "/"

  /** The two vectors of the matcher. A '/' after a parameter belongs to no fragment. */
  datatype Matcher = Matcher(staticFragments: seq<string>, paramNames: seq<string>)

  predicate Distinct(names: seq<string>) {
    forall i, j :: 0 <= i < j < |names| ==> names[i] != names[j]
  }

  // ------------------------------------------------------------ construction

  /** The end of the parameter name that starts behind the marker at `m`. */
  function NameEnd(pattern: string, m: nat): (r: nat)
    requires m < |pattern|
    ensures m < r <= |pattern|
  {
    FindFrom(pattern, SEPARATOR, m + 1)
  }

  function AfterName(pattern: string, m: nat): (r: string)
    requires m < |pattern|
    ensures |r| < |pattern|
  {
    if NameEnd(pattern, m) == |pattern| then "" else pattern[NameEnd(pattern, m) + 1..]
  }

  function Fragments(pattern: string): seq<string>
    decreases |pattern|
  {
    var m := Find(pattern, MARKER);
    if m == |pattern| then (if pattern == "" then [] else [pattern])
    else [pattern[..m]] + Fragments(AfterName(pattern, m))
  }

  function Names(pattern: string): seq<string>
    decreases |pattern|
  {
    var m := Find(pattern, MARKER);
    if m == |pattern| then [] else [pattern[m + 1..NameEnd(pattern, m)]] + Names(AfterName(pattern, m))
  }

  /** The pattern from `last` on; `last` may be one past the end. */
  function Remaining(pattern: string, last: nat): string {
    if last <= |pattern| then pattern[last..] else ""
  }

  lemma {:induction false} NameEndShift(pattern: string, last: nat, m: nat)
    requires last <= |pattern| && m < |pattern[last..]|
    ensures FindFrom(pattern, SEPARATOR, last + m + 1) == last + NameEnd(pattern[last..], m)
  {
    FindFromIsFind(pattern, SEPARATOR, last + m + 1);
    FindFromIsFind(pattern[last..], SEPARATOR, m + 1);
    assert pattern[last..][m + 1..] == pattern[last + m + 1..];
  }

  /** One round of the constructor's loop, seen on the remaining pattern. */
  lemma {:induction false} CutRound(pattern: string, last: nat, marker: nat, sep: nat)
    requires last <= |pattern| && marker == FindFrom(pattern, MARKER, last) < |pattern|
    requires sep == FindFrom(pattern, SEPARATOR, marker + 1)
    ensures Fragments(Remaining(pattern, last))
         == [pattern[last..marker]] + Fragments(Remaining(pattern, sep + 1))
    ensures Names(Remaining(pattern, last)) == [pattern[marker + 1..sep]] + Names(Remaining(pattern, sep + 1))
    ensures |Remaining(pattern, sep + 1)| < |Remaining(pattern, last)|
  {
    var rest, m := pattern[last..], marker - last;
    PiecesAgree(pattern, last, marker, sep);
    UnfoldCut(rest, m);
  }

  lemma {:induction false} PiecesAgree(pattern: string, last: nat, marker: nat, sep: nat)
    requires last <= |pattern| && marker == FindFrom(pattern, MARKER, last) < |pattern|
    requires sep == FindFrom(pattern, SEPARATOR, marker + 1)
    ensures var (rest, m) := (pattern[last..], marker - last);
            && m == Find(rest, MARKER) < |rest| && rest[..m] == pattern[last..marker]
            && rest[m + 1..NameEnd(rest, m)] == pattern[marker + 1..sep]
            && AfterName(rest, m) == Remaining(pattern, sep + 1)
  {
    FindFromIsFind(pattern, MARKER, last);
    NameEndShift(pattern, last, marker - last);
    PiecesOfRest(pattern, last, marker - last, sep - last);
  }

  lemma {:induction false} UnfoldCut(rest: string, m: nat)
    requires m == Find(rest, MARKER) < |rest|
    ensures Fragments(rest) == [rest[..m]] + Fragments(AfterName(rest, m))
    ensures Names(rest) == [rest[m + 1..NameEnd(rest, m)]] + Names(AfterName(rest, m))
  {}

  lemma {:induction false} PiecesOfRest(pattern: string, last: nat, m: nat, e: nat)
    requires last + m < last + e <= |pattern|
    ensures pattern[last..][..m] == pattern[last..last + m]
    ensures pattern[last..][m + 1..e] == pattern[last + m + 1..last + e]
    ensures last + e < |pattern| ==> pattern[last..][e + 1..] == pattern[last + e + 1..]
  {}

  lemma {:induction false} CutEnd(pattern: string, last: nat)
    requires last <= |pattern| ==> FindFrom(pattern, MARKER, last) == |pattern|
    ensures Names(Remaining(pattern, last)) == []
    ensures Fragments(Remaining(pattern, last)) == if last < |pattern| then [pattern[last..]] else []
  {
    if last <= |pattern| { FindFromIsFind(pattern, MARKER, last); }
  }

  /** The constructor. `None` is the `std::invalid_argument` it throws on a repeated parameter name. */
  method MakeMatcher(pattern: string) returns (r: Option<Matcher>)
    ensures r.Some? <==> Distinct(Names(pattern))
    ensures r.Some? ==> r.value == Matcher(Fragments(pattern), Names(pattern))
  {
    var lastParamEnd: nat := 0;
    var fragments: seq<string>, names: seq<string> := [], [];
    var nameSet: set<string> := {};
    assert Remaining(pattern, 0) == pattern;
    ghost var toCome := Cut(pattern);
    ghost var whole := toCome;
    while true
      invariant toCome == Cut(Remaining(pattern, lastParamEnd))
      invariant Joined(fragments, names, toCome, whole)
      invariant Holds(nameSet, names)
      invariant Distinct(names)
      decreases |Remaining(pattern, lastParamEnd)|
    {
      var markerPos := if lastParamEnd <= |pattern| then FindFrom(pattern, MARKER, lastParamEnd) else |pattern|;
      if markerPos == |pattern| { break; }
      var sepPos := FindFrom(pattern, SEPARATOR, markerPos + 1);
      var name := pattern[markerPos + 1..sepPos];
      ghost var next: nat := sepPos + 1;
      toCome := CutKeeps(pattern, lastParamEnd, fragments, names, markerPos, sepPos, next, toCome, whole);
      fragments := fragments + [pattern[lastParamEnd..markerPos]];
      if name in nameSet {
        RepeatedName(names, name, toCome, whole);
        return None;
      }
      DistinctSnoc(names, name);
      HoldsSnoc(nameSet, names, name);
      nameSet := nameSet + {name};
      names := names + [name];
      lastParamEnd := sepPos + 1;
      assert lastParamEnd == next;
    }
    CutEnd(pattern, lastParamEnd);
    if lastParamEnd < |pattern| {
      fragments := fragments + [pattern[lastParamEnd..]];
    }
    return Some(Matcher(fragments, names));
  }

  /** What the constructor makes of a pattern. */
  ghost function Cut(pattern: string): Matcher { Matcher(Fragments(pattern), Names(pattern)) }

  /** The vectors collected so far, with what is to come, make the whole. */
  ghost predicate Joined(fragments: seq<string>, names: seq<string>, toCome: Matcher, whole: Matcher) {
    && fragments + toCome.staticFragments == whole.staticFragments
    && names + toCome.paramNames == whole.paramNames
  }

  lemma {:induction false} CutKeeps(pattern: string, last: nat, fragments: seq<string>, names: seq<string>,
                                    marker: nat, sep: nat, next: nat, toCome: Matcher, whole: Matcher)
    returns (r: Matcher)
    requires last <= |pattern| && marker == FindFrom(pattern, MARKER, last) < |pattern|
    requires sep == FindFrom(pattern, SEPARATOR, marker + 1) && next == sep + 1
    requires toCome == Cut(Remaining(pattern, last)) && Joined(fragments, names, toCome, whole)
    ensures r == Cut(Remaining(pattern, next))
    ensures Joined(fragments + [pattern[last..marker]], names + [pattern[marker + 1..sep]], r, whole)
    ensures |Remaining(pattern, next)| < |Remaining(pattern, last)|
  {
    CutRound(pattern, last, marker, sep);
    r := Cut(Remaining(pattern, next));
    Regroup(fragments, [pattern[last..marker]], r.staticFragments);
    Regroup(names, [pattern[marker + 1..sep]], r.paramNames);
  }

  /** The set has just the members of the list. */
  ghost predicate Holds(seen: set<string>, names: seq<string>) {
    forall n :: n in seen <==> n in names
  }

  lemma {:induction false} HoldsSnoc(seen: set<string>, names: seq<string>, name: string)
    requires Holds(seen, names)
    ensures Holds(seen + {name}, names + [name])
  {
    forall n ensures n in seen + {name} <==> n in names + [name] {
      assert n in names + [name] <==> n in names || n == name;
    }
  }

  lemma {:induction false} DistinctSnoc(names: seq<string>, name: string)
    requires Distinct(names) && name !in names
    ensures Distinct(names + [name])
  {}

  lemma {:induction false} RepeatedName(names: seq<string>, name: string, toCome: Matcher, whole: Matcher)
    requires name in names && names + [name] + toCome.paramNames == whole.paramNames
    ensures !Distinct(whole.paramNames)
  {
    var k :| 0 <= k < |names| && names[k] == name;
    assert whole.paramNames[k] == (names + [name])[k] && whole.paramNames[|names|] == (names + [name])[|names|];
  }

  /** As many fragments as names, or one more behind the last parameter. */
  predicate WellFormed(fragments: seq<string>, names: seq<string>) {
    |names| <= |fragments| <= |names| + 1
  }

  lemma {:induction false} CutIsWellFormed(pattern: string)
    ensures WellFormed(Fragments(pattern), Names(pattern))
    decreases |pattern|
  {
    var m := Find(pattern, MARKER);
    if m < |pattern| { CutIsWellFormed(AfterName(pattern, m)); }
  }

  // ----------------------------------------------------------------- matching

  /** `strncmp(a, b, n) == 0`: equal characters up to the first NUL, at most `n` of them. */
  predicate StrnEqual(a: string, b: string)
    requires |a| == |b|
  {
    a == "" || (a[0] == b[0] && (a[0] == '\0' || StrnEqual(a[1..], b[1..])))
  }

  lemma {:induction false} StrnEqualIsEqual(a: string, b: string)
    requires |a| == |b| && '\0' !in b
    ensures StrnEqual(a, b) <==> a == b
  {
    if a != "" {
      StrnEqualIsEqual(a[1..], b[1..]);
      assert a == [a[0]] + a[1..] && b == [b[0]] + b[1..];
    }
  }

  /** The captures of a path remainder `text` along the remaining fragments and names. */
  function MatchText(fragments: seq<string>, names: seq<string>, text: string): Option<seq<string>>
    requires fragments != []
    decreases |fragments|
  {
    var f := fragments[0];
    if |f| > |text| || !StrnEqual(text[..|f|], f) then None
    else
      var rest := text[|f|..];
      if names == [] then
        if |fragments| > 1 then MatchText(fragments[1..], [], rest)
        else if rest == "" then Some([]) else None
      else
        var k := Find(rest, SEPARATOR);
        if |fragments| == 1 then (if k + 1 >= |rest| then Some([rest[..k]]) else None)
        else if k == |rest| then None
        else
          match MatchText(fragments[1..], names[1..], rest[k + 1..])
          case None => None
          case Some(vs) => Some([rest[..k]] + vs)
  }

  function MatchPath(m: Matcher, path: string): Option<seq<string>> {
    if m.staticFragments == [] then (if path == "" then Some([]) else None)
    else MatchText(m.staticFragments, m.paramNames, path)
  }

  /** The captures by name; the first of equal names wins, as with `emplace`. */
  function ByName(names: seq<string>, values: seq<string>): map<string, string>
    requires |names| >= |values|
  {
    if values == [] then map[]
    else
      var front := ByName(names[..|values| - 1], values[..|values| - 1]);
      var name := names[|values| - 1];
      if name in front then front else front[name := values[|values| - 1]]
  }

  function Prepend(done: seq<string>, r: Option<seq<string>>): Option<seq<string>> {
    match r
    case None => None
    case Some(vs) => Some(done + vs)
  }

  /** What is left to do at fragment `i` and position `pos`, one past the end included. */
  function MatchFrom(m: Matcher, path: string, i: nat, pos: nat): Option<seq<string>>
    requires i <= |m.staticFragments|
  {
    if i == |m.staticFragments| then (if pos >= |path| then Some([]) else None)
    else if pos > |path| then None
    else MatchText(m.staticFragments[i..], if i <= |m.paramNames| then m.paramNames[i..] else [], path[pos..])
  }

  lemma {:induction false} ByNameSnoc(names: seq<string>, values: seq<string>, v: string)
    requires |names| > |values|
    ensures ByName(names, values + [v])
         == if names[|values|] in ByName(names, values) then ByName(names, values)
            else ByName(names, values)[names[|values|] := v]
  {
    assert (values + [v])[..|values|] == values;
    ByNamePrefix(names, values, |values|);
  }

  lemma {:induction false} ByNamePrefix(names: seq<string>, values: seq<string>, n: nat)
    requires |values| <= n <= |names|
    ensures ByName(names[..n], values) == ByName(names, values)
  {
    if values != [] {
      assert names[..n][..|values| - 1] == names[..|values| - 1];
    }
  }

  /** `emplace` on the parameters: the first value of a name stays. */
  method Emplace(params: map<string, string>, name: string, value: string, ghost names: seq<string>,
                 ghost values: seq<string>)
    returns (r: map<string, string>)
    requires |values| < |names| && name == names[|values|] && params == ByName(names, values)
    ensures r == ByName(names, values + [value])
  {
    ByNameSnoc(names, values, value);
    r := if name in params then params else params[name := value];
  }

  /** `match`, with the captured values by name. */
  method Match(m: Matcher, path: string) returns (ok: bool, params: map<string, string>)
    requires WellFormed(m.staticFragments, m.paramNames)
    ensures ok <==> MatchPath(m, path).Some?
    ensures ok ==> |MatchPath(m, path).value| == |m.paramNames|
    ensures ok ==> params == ByName(m.paramNames, MatchPath(m, path).value)
  {
    params := map[];
    ghost var values: seq<string> := [];
    var pos: nat := 0;
    ghost var all := MatchPath(m, path);
    MatchStart(m, path);
    for i := 0 to |m.staticFragments|
      invariant |values| == (if i <= |m.paramNames| then i else |m.paramNames|)
      invariant MatchedSoFar(m, path, i, pos, values, all)
      invariant params == ByName(m.paramNames, values)
    {
      var fragment := m.staticFragments[i];
      if pos + |fragment| > |path| {
        TooShort(m, path, i, pos, values, all);
        return false, params;
      }
      if !StrnEqual(path[pos..pos + |fragment|], fragment) {
        Mismatched(m, path, i, pos, values, all);
        return false, params;
      }
      ghost var at := pos + |fragment|;
      if i >= |m.paramNames| {
        StaticMatched(m, path, i, pos, at, values, all);
        pos := pos + |fragment|;
        assert pos == at;
      } else {
        var sepPos := FindFrom(path, SEPARATOR, pos + |fragment|);
        ghost var next := sepPos + 1;
        ParamMatched(m, path, i, pos, at, sepPos, next, values, all);
        pos := pos + |fragment|;
        var value := path[pos..sepPos];
        params := Emplace(params, m.paramNames[i], value, m.paramNames, values);
        values := values + [value];
        pos := sepPos + 1;
        assert pos == next;
      }
    }
    ok := pos >= |path|;
    AllMatched(m, path, pos, values, all);
  }

  /** The captures so far, with what is still to match, give the match of the whole path. */
  ghost predicate MatchedSoFar(m: Matcher, path: string, i: nat, pos: nat, values: seq<string>,
                               all: Option<seq<string>>)
    requires i <= |m.staticFragments|
  {
    Prepend(values, MatchFrom(m, path, i, pos)) == all
  }

  lemma {:induction false} PrependTwice(done: seq<string>, v: string, r: Option<seq<string>>)
    ensures Prepend(done, Prepend([v], r)) == Prepend(done + [v], r)
  {
    if r.Some? { assert done + ([v] + r.value) == (done + [v]) + r.value; }
  }

  lemma {:induction false} MatchStart(m: Matcher, path: string)
    ensures Prepend([], MatchFrom(m, path, 0, 0)) == MatchPath(m, path)
  {
    assert path[0..] == path && m.staticFragments[0..] == m.staticFragments && m.paramNames[0..] == m.paramNames;
    var r := MatchPath(m, path);
    if r.Some? { assert [] + r.value == r.value; }
  }

  lemma {:induction false} TooShort(m: Matcher, path: string, i: nat, pos: nat, values: seq<string>,
                                    all: Option<seq<string>>)
    requires i < |m.staticFragments| && pos + |m.staticFragments[i]| > |path|
    requires MatchedSoFar(m, path, i, pos, values, all)
    ensures all == None
  {}

  lemma {:induction false} Mismatched(m: Matcher, path: string, i: nat, pos: nat, values: seq<string>,
                                      all: Option<seq<string>>)
    requires i < |m.staticFragments| && pos + |m.staticFragments[i]| <= |path|
    requires !StrnEqual(path[pos..pos + |m.staticFragments[i]|], m.staticFragments[i])
    requires MatchedSoFar(m, path, i, pos, values, all)
    ensures all == None
  {
    var f := m.staticFragments[i];
    assert path[pos..][..|f|] == path[pos..pos + |f|];
  }

  lemma {:induction false} AllMatched(m: Matcher, path: string, pos: nat, values: seq<string>, all: Option<seq<string>>)
    requires MatchedSoFar(m, path, |m.staticFragments|, pos, values, all)
    ensures all == if pos >= |path| then Some(values) else None
  {
    assert values + [] == values;
  }

  lemma {:induction false} StaticStep(m: Matcher, path: string, i: nat, pos: nat)
    requires WellFormed(m.staticFragments, m.paramNames) && |m.paramNames| <= i < |m.staticFragments|
    requires pos + |m.staticFragments[i]| <= |path|
    requires StrnEqual(path[pos..pos + |m.staticFragments[i]|], m.staticFragments[i])
    ensures MatchFrom(m, path, i, pos) == MatchFrom(m, path, i + 1, pos + |m.staticFragments[i]|)
  {
    var f := m.staticFragments[i];
    assert m.staticFragments[i..] == [f];
    assert path[pos..][..|f|] == path[pos..pos + |f|] && path[pos..][|f|..] == path[pos + |f|..];
  }

  lemma {:induction false} ParamStep(m: Matcher, path: string, i: nat, pos: nat, at: nat, sep: nat)
    requires WellFormed(m.staticFragments, m.paramNames) && i < |m.paramNames|
    requires pos + |m.staticFragments[i]| == at <= |path| && sep == FindFrom(path, SEPARATOR, at)
    requires StrnEqual(path[pos..at], m.staticFragments[i])
    ensures MatchFrom(m, path, i, pos) == Prepend([path[at..sep]], MatchFrom(m, path, i + 1, sep + 1))
  {
    var (f, n) := (m.staticFragments[i..], m.paramNames[i..]);
    var next := if |f| > 1 && sep < |path| then MatchText(f[1..], n[1..], path[sep + 1..]) else None;
    RestOfPath(path, pos, at, sep);
    FindFromIsFind(path, SEPARATOR, at);
    MatchTextParam(f, n, path[pos..], path[at..], sep - at, next);
    NextParam(m, path, i, sep, next);
    PrependNothing(path[at..sep]);
  }

  lemma {:induction false} PrependNothing(v: string)
    ensures Prepend([v], Some([])) == Some([v]) && Prepend([v], None) == None
  {
    assert [v] + [] == [v];
  }

  lemma {:induction false} ParamMatched(m: Matcher, path: string, i: nat, pos: nat, at: nat, sep: nat,
                                        next: nat, values: seq<string>, all: Option<seq<string>>)
    requires WellFormed(m.staticFragments, m.paramNames) && i < |m.paramNames| && next == sep + 1
    requires pos + |m.staticFragments[i]| == at <= |path| && sep == FindFrom(path, SEPARATOR, at)
    requires StrnEqual(path[pos..at], m.staticFragments[i]) && MatchedSoFar(m, path, i, pos, values, all)
    ensures MatchedSoFar(m, path, i + 1, next, values + [path[at..sep]], all)
  {
    ParamStep(m, path, i, pos, at, sep);
    PrependTwice(values, path[at..sep], MatchFrom(m, path, i + 1, sep + 1));
  }

  lemma {:induction false} StaticMatched(m: Matcher, path: string, i: nat, pos: nat, at: nat,
                                         values: seq<string>, all: Option<seq<string>>)
    requires WellFormed(m.staticFragments, m.paramNames) && |m.paramNames| <= i < |m.staticFragments|
    requires pos + |m.staticFragments[i]| == at <= |path|
    requires StrnEqual(path[pos..at], m.staticFragments[i]) && MatchedSoFar(m, path, i, pos, values, all)
    ensures MatchedSoFar(m, path, i + 1, at, values, all)
  {
    StaticStep(m, path, i, pos);
  }

  /** What remains behind a parameter that ends at `sep`. */
  lemma {:induction false} NextParam(m: Matcher, path: string, i: nat, sep: nat, next: Option<seq<string>>)
    requires WellFormed(m.staticFragments, m.paramNames) && i < |m.paramNames| && sep <= |path|
    requires i + 1 < |m.staticFragments| && sep < |path| ==>
               next == MatchText(m.staticFragments[i..][1..], m.paramNames[i..][1..], path[sep + 1..])
    ensures MatchFrom(m, path, i + 1, sep + 1)
         == if i + 1 == |m.staticFragments| then (if sep + 1 >= |path| then Some([]) else None)
            else if sep == |path| then None
            else next
  {
    TailOfTail(m.staticFragments, i);
    TailOfTail(m.paramNames, i);
  }

  lemma {:induction false} TailOfTail(s: seq<string>, i: nat)
    requires i < |s|
    ensures s[i..][1..] == s[i + 1..]
  {}

  lemma {:induction false} MatchTextParam(fragments: seq<string>, names: seq<string>, text: string, rest: string,
                                          k: nat, next: Option<seq<string>>)
    requires fragments != [] && names != [] && |fragments[0]| <= |text| && rest == text[|fragments[0]|..]
    requires StrnEqual(text[..|fragments[0]|], fragments[0]) && k == Find(rest, SEPARATOR)
    requires |fragments| > 1 && k < |rest| ==> next == MatchText(fragments[1..], names[1..], rest[k + 1..])
    ensures MatchText(fragments, names, text)
         == if |fragments| == 1 then (if k + 1 >= |rest| then Some([rest[..k]]) else None)
            else if k == |rest| then None
            else Prepend([rest[..k]], next)
  {}

  lemma {:induction false} RestOfPath(path: string, pos: nat, at: nat, sep: nat)
    requires pos <= at <= sep <= |path|
    ensures path[pos..][..at - pos] == path[pos..at] && path[pos..][at - pos..] == path[at..]
    ensures path[at..][..sep - at] == path[at..sep]
    ensures sep < |path| ==> path[at..][sep - at + 1..] == path[sep + 1..]
  {}

  // -------------------------------------------------- what matches, and why

  predicate NoSlash(values: seq<string>) {
    forall i :: 0 <= i < |values| ==> '/' !in values[i]
  }

  /** The pattern with its parameters replaced by values. */
  function Fill(pattern: string, values: seq<string>): string
    requires |values| == |Names(pattern)|
    decreases |pattern|
  {
    var m := Find(pattern, MARKER);
    if m == |pattern| then pattern
    else if NameEnd(pattern, m) == |pattern| then pattern[..m] + values[0]
    else pattern[..m] + values[0] + SEPARATOR + Fill(AfterName(pattern, m), values[1..])
  }

  /** The last element is a parameter, a final '/' aside. */
  predicate EndsInParam(pattern: string) {
    |Fragments(pattern)| == |Names(pattern)| > 0
  }

  /** ... with that final '/'. */
  predicate SlashAfterLast(pattern: string)
    decreases |pattern|
  {
    var m := Find(pattern, MARKER);
    m < |pattern| && NameEnd(pattern, m) < |pattern|
    && (AfterName(pattern, m) == "" || SlashAfterLast(AfterName(pattern, m)))
  }

  /** The fragments and values put together, without a final '/'. */
  function Rebuild(fragments: seq<string>, values: seq<string>): string
    requires WellFormed(fragments, values)
  {
    if fragments == [] then ""
    else if values == [] then fragments[0]
    else if |fragments| == 1 then fragments[0] + values[0]
    else fragments[0] + values[0] + SEPARATOR + Rebuild(fragments[1..], values[1..])
  }

  lemma {:induction false} RebuildCons(f: string, more: seq<string>, values: seq<string>)
    requires values != [] && WellFormed(more, values[1..])
    ensures Rebuild([f] + more, values)
         == if more == [] then f + values[0] else f + values[0] + SEPARATOR + Rebuild(more, values[1..])
  {
    assert ([f] + more)[1..] == more;
  }

  /** The parameter at `m`, and what `rest` makes of the pattern behind it. */
  lemma {:induction false} FillUnfold(pattern: string, m: nat, values: seq<string>, rest: string)
    requires |values| == |Names(pattern)| && m == Find(pattern, MARKER) < |pattern|
    requires |values[1..]| == |Names(AfterName(pattern, m))| && rest == Fill(AfterName(pattern, m), values[1..])
    ensures Fill(pattern, values)
         == if NameEnd(pattern, m) == |pattern| then pattern[..m] + values[0]
            else pattern[..m] + values[0] + SEPARATOR + rest
  {}

  lemma {:induction false} FillIsRebuild(pattern: string, values: seq<string>)
    requires |values| == |Names(pattern)|
    ensures WellFormed(Fragments(pattern), values)
    ensures Fill(pattern, values)
         == Rebuild(Fragments(pattern), values) + if SlashAfterLast(pattern) then SEPARATOR else ""
    decreases |pattern|
  {
    CutIsWellFormed(pattern);
    var m := Find(pattern, MARKER);
    if m < |pattern| {
      var after := AfterName(pattern, m);
      FillIsRebuild(after, values[1..]);
      FillUnfold(pattern, m, values, Fill(after, values[1..]));
      RebuildCons(pattern[..m], Fragments(after), values);
    }
  }

  ghost predicate Fills(fragments: seq<string>, names: seq<string>, text: string, values: seq<string>)
    requires WellFormed(fragments, names)
  {
    && |values| == |names| && NoSlash(values)
    && (|| text == Rebuild(fragments, values)
        || (|fragments| == |names| > 0 && text == Rebuild(fragments, values) + SEPARATOR))
  }

  // ------------------------------------------------------------------ theorem

  /** Texts that the comparison with the fragments cannot tell from them. */
  predicate Agree(texts: seq<string>, fragments: seq<string>) {
    |texts| == |fragments| &&
    forall i :: 0 <= i < |texts| ==> |texts[i]| == |fragments[i]| && StrnEqual(texts[i], fragments[i])
  }

  lemma {:induction false} AgreeCons(g: string, more: seq<string>, fragments: seq<string>)
    requires fragments != [] && |g| == |fragments[0]| && StrnEqual(g, fragments[0]) && Agree(more, fragments[1..])
    ensures Agree([g] + more, fragments)
  {
    var texts := [g] + more;
    forall i | 0 <= i < |texts| ensures |texts[i]| == |fragments[i]| && StrnEqual(texts[i], fragments[i]) {
      assert i > 0 ==> texts[i] == more[i - 1] && fragments[i] == fragments[1..][i - 1];
    }
  }

  lemma {:induction false} AgreeTail(texts: seq<string>, fragments: seq<string>)
    requires texts != [] && Agree(texts, fragments)
    ensures Agree(texts[1..], fragments[1..])
  {
    forall i | 0 <= i < |texts| - 1
      ensures |texts[1..][i]| == |fragments[1..][i]| && StrnEqual(texts[1..][i], fragments[1..][i])
    {
      assert texts[1..][i] == texts[i + 1] && fragments[1..][i] == fragments[i + 1];
    }
  }

  lemma {:induction false} AgreeOne(g: string, f: string)
    requires |g| == |f| && StrnEqual(g, f)
    ensures Agree([g], [f])
  {}

  /** A match has taken such texts from the path. */
  lemma {:induction false} MatchFills(fragments: seq<string>, names: seq<string>, text: string, values: seq<string>)
    returns (texts: seq<string>)
    requires fragments != [] && WellFormed(fragments, names) && MatchText(fragments, names, text) == Some(values)
    ensures Agree(texts, fragments) && Fills(texts, names, text, values)
    decreases |fragments|
  {
    var (f, g) := (fragments[0], text[..|fragments[0]|]);
    var rest := text[|f|..];
    var k := Find(rest, SEPARATOR);
    assert text == g + rest;
    if |fragments| == 1 {
      assert fragments == [f];
      AgreeOne(g, f);
      texts := [g];
      if names == [] {
        assert text == g;
      } else {
        MatchTextParam(fragments, names, text, rest, k, None);
        LastParam(texts, names, rest, values);
      }
    } else {
      var next := if k < |rest| then MatchText(fragments[1..], names[1..], rest[k + 1..]) else None;
      MatchTextParam(fragments, names, text, rest, k, next);
      PrependOne(rest[..k], next, values);
      var more := MatchFills(fragments[1..], names[1..], rest[k + 1..], values[1..]);
      AgreeCons(g, more, fragments);
      texts := [g] + more;
      assert texts[1..] == more;
      InnerParamFills(texts, names, rest, values);
    }
  }

  /** A path put together from such texts and values matches with these values. */
  lemma {:induction false} FillsMatch(texts: seq<string>, fragments: seq<string>, names: seq<string>, text: string,
                                      values: seq<string>)
    requires fragments != [] && WellFormed(fragments, names) && Agree(texts, fragments)
    requires Fills(texts, names, text, values)
    ensures MatchText(fragments, names, text) == Some(values)
    decreases |fragments|
  {
    RebuildStarts(texts, values);
    var (g, rest) := (texts[0], text[|texts[0]|..]);
    var k := Find(rest, SEPARATOR);
    assert text[..|g|] == g && text == g + rest;
    if names == [] {
      assert Rebuild(texts, values) == g;
    } else if |fragments| == 1 {
      MatchTextParam(fragments, names, text, rest, k, None);
      assert texts == [g];
      LastParam(texts, names, rest, values);
    } else {
      FillsInnerParam(texts, names, rest, values);
      AgreeTail(texts, fragments);
      FillsMatch(texts[1..], fragments[1..], names[1..], rest[k + 1..], values[1..]);
      MatchTextParam(fragments, names, text, rest, k, MatchText(fragments[1..], names[1..], rest[k + 1..]));
      PrependOne(rest[..k], MatchText(fragments[1..], names[1..], rest[k + 1..]), values);
    }
  }

  /** For every pattern, NUL bytes included: a path matches exactly when it is put together from texts that
      the comparison cannot tell from the fragments, and '/'-free values. */
  lemma {:induction false} MatchTakesTexts(pattern: string, path: string, values: seq<string>)
    ensures WellFormed(Fragments(pattern), Names(pattern))
    ensures MatchPath(Matcher(Fragments(pattern), Names(pattern)), path) == Some(values) <==>
            exists texts :: Agree(texts, Fragments(pattern)) && Fills(texts, Names(pattern), path, values)
  {
    CutIsWellFormed(pattern);
    var (fragments, names) := (Fragments(pattern), Names(pattern));
    if fragments == [] {
      assert Agree([], []);
      assert Fills([], [], path, values) <==> values == [] && path == "";
    } else {
      if MatchText(fragments, names, path) == Some(values) {
        var texts := MatchFills(fragments, names, path, values);
      }
      forall texts | Agree(texts, fragments) && Fills(texts, names, path, values)
        ensures MatchText(fragments, names, path) == Some(values)
      {
        FillsMatch(texts, fragments, names, path, values);
      }
    }
  }

  predicate NulFree(fragments: seq<string>) {
    forall i :: 0 <= i < |fragments| ==> '\0' !in fragments[i]
  }

  lemma {:induction false} OnlyFragmentsAgree(texts: seq<string>, fragments: seq<string>)
    requires NulFree(fragments)
    ensures Agree(texts, fragments) <==> texts == fragments
  {
    if |texts| == |fragments| {
      forall i | 0 <= i < |texts| && |texts[i]| == |fragments[i]|
        ensures StrnEqual(texts[i], fragments[i]) <==> texts[i] == fragments[i]
      {
        StrnEqualIsEqual(texts[i], fragments[i]);
      }
    }
  }

  lemma {:induction false} PrependOne(v: string, r: Option<seq<string>>, values: seq<string>)
    requires values != []
    ensures Prepend([v], r) == Some(values) <==> v == values[0] && r == Some(values[1..])
  {
    assert values == [values[0]] + values[1..];
  }

  /** A last parameter takes the text up to an optional final '/'. */
  lemma {:induction false} LastParam(fragments: seq<string>, names: seq<string>, rest: string, values: seq<string>)
    requires |fragments| == |names| == 1
    ensures var k := Find(rest, SEPARATOR);
            (k + 1 >= |rest| && values == [rest[..k]]) <==> Fills(fragments, names, fragments[0] + rest, values)
  {
    var k := Find(rest, SEPARATOR);
    BeforeFirst(rest, '/');
    if k == |rest| {
      assert rest[..k] == rest;
    } else if k + 1 == |rest| {
      assert OccursAt(rest, SEPARATOR, k);
      assert rest == rest[..k] + SEPARATOR;
      assert fragments[0] + rest == Rebuild(fragments, [rest[..k]]) + SEPARATOR;
    }
    if Fills(fragments, names, fragments[0] + rest, values) {
      var v := values[0];
      var t := fragments[0] + rest;
      assert t[|fragments[0]|..] == rest;
      if t == fragments[0] + v {
        assert (fragments[0] + v)[|fragments[0]|..] == v;
        NoneFound(v, '/');
        assert rest[..|v|] == v;
      } else {
        assert (fragments[0] + v + SEPARATOR)[|fragments[0]|..] == v + ['/'] + "";
        FindChar(v, '/', "");
        assert rest[..|v|] == v;
      }
      assert values == [v];
    }
  }

  /** A parameter before more fragments takes the text up to the next '/', which must be there. */
  lemma {:induction false} InnerParamFills(fragments: seq<string>, names: seq<string>, rest: string,
                                           values: seq<string>)
    requires |fragments| > 1 && names != [] && WellFormed(fragments, names) && values != []
    requires Find(rest, SEPARATOR) < |rest| && values[0] == rest[..Find(rest, SEPARATOR)]
    requires Fills(fragments[1..], names[1..], rest[Find(rest, SEPARATOR) + 1..], values[1..])
    ensures Fills(fragments, names, fragments[0] + rest, values)
  {
    var k := Find(rest, SEPARATOR);
    BeforeFirst(rest, '/');
    assert OccursAt(rest, SEPARATOR, k);
    assert rest == rest[..k] + SEPARATOR + rest[k + 1..];
    forall i | 0 <= i < |values| ensures '/' !in values[i] {
      assert i > 0 ==> values[i] == values[1..][i - 1];
    }
    var r := Rebuild(fragments[1..], values[1..]);
    assert fragments[0] + rest == fragments[0] + values[0] + SEPARATOR + rest[k + 1..];
    assert fragments[0] + values[0] + SEPARATOR + (r + SEPARATOR)
        == (fragments[0] + values[0] + SEPARATOR + r) + SEPARATOR;
  }

  lemma {:induction false} FillsInnerParam(fragments: seq<string>, names: seq<string>, rest: string,
                                           values: seq<string>)
    requires |fragments| > 1 && names != [] && WellFormed(fragments, names)
    requires Fills(fragments, names, fragments[0] + rest, values)
    ensures var k := Find(rest, SEPARATOR);
            && k < |rest| && values != [] && values[0] == rest[..k]
            && Fills(fragments[1..], names[1..], rest[k + 1..], values[1..])
  {
    var (f, v) := (fragments[0], values[0]);
    var r := Rebuild(fragments[1..], values[1..]);
    var tail := if f + rest == Rebuild(fragments, values) then r else r + SEPARATOR;
    assert f + rest == f + (v + SEPARATOR + tail);
    assert (f + rest)[|f|..] == rest && (f + (v + SEPARATOR + tail))[|f|..] == v + SEPARATOR + tail;
    FindChar(v, '/', tail);
    assert rest[|v| + 1..] == tail && rest[..|v|] == v;
    forall i | 0 <= i < |values[1..]| ensures '/' !in values[1..][i] {
      assert values[1..][i] == values[i + 1];
    }
  }

  lemma {:induction false} RebuildStarts(fragments: seq<string>, values: seq<string>)
    requires fragments != [] && WellFormed(fragments, values)
    ensures StartsWith(Rebuild(fragments, values), fragments[0])
    ensures StartsWith(Rebuild(fragments, values) + SEPARATOR, fragments[0])
  {
    var (f, r) := (fragments[0], Rebuild(fragments, values));
    if values != [] && |fragments| > 1 {
      assert r == f + (values[0] + SEPARATOR + Rebuild(fragments[1..], values[1..]));
    }
    assert r[..|f|] == f;
    assert (r + SEPARATOR)[..|f|] == r[..|f|];
  }

  lemma {:induction false} FragmentsNulFree(pattern: string)
    requires '\0' !in pattern
    ensures NulFree(Fragments(pattern))
    decreases |pattern|
  {
    var m := Find(pattern, MARKER);
    if m < |pattern| {
      FragmentsNulFree(AfterName(pattern, m));
    }
  }

  /** A path matches a pattern with certain captures exactly when it is the pattern filled with those
      '/'-free values, where a pattern that ends in a parameter does not care about one final '/'. */
  lemma {:induction false} MatchIsFilling(pattern: string, path: string, values: seq<string>)
    requires '\0' !in pattern
    ensures MatchPath(Matcher(Fragments(pattern), Names(pattern)), path) == Some(values) <==>
            (&& |values| == |Names(pattern)| && NoSlash(values)
             && (|| path == Fill(pattern, values)
                 || (EndsInParam(pattern) && !SlashAfterLast(pattern) && path == Fill(pattern, values) + SEPARATOR)
                 || (EndsInParam(pattern) && SlashAfterLast(pattern) && path + SEPARATOR == Fill(pattern, values))))
  {
    CutIsWellFormed(pattern);
    FragmentsNulFree(pattern);
    SlashMeansParam(pattern);
    var fragments, names := Fragments(pattern), Names(pattern);
    if |values| == |names| {
      FillIsRebuild(pattern, values);
      var r := Rebuild(fragments, values);
      assert path + SEPARATOR == r + SEPARATOR ==> (path + SEPARATOR)[..|path|] == (r + SEPARATOR)[..|r|];
      assert (path + SEPARATOR)[..|path|] == path && (r + SEPARATOR)[..|r|] == r;
    }
    MatchTakesTexts(pattern, path, values);
    OnlyFragmentsAgree(fragments, fragments);
    forall texts | Agree(texts, fragments) ensures texts == fragments { OnlyFragmentsAgree(texts, fragments); }
  }

  lemma {:induction false} SlashMeansParam(pattern: string)
    ensures SlashAfterLast(pattern) ==> EndsInParam(pattern)
    decreases |pattern|
  {
    var m := Find(pattern, MARKER);
    if m < |pattern| { SlashMeansParam(AfterName(pattern, m)); }
  }

  /** The reported map holds each capture under its own name. */
  lemma {:induction false} CapturesByName(names: seq<string>, values: seq<string>)
    requires Distinct(names) && |values| <= |names|
    ensures ByName(names, values).Keys == set i | 0 <= i < |values| :: names[i]
    ensures forall i :: 0 <= i < |values| ==> ByName(names, values)[names[i]] == values[i]
    decreases |values|
  {
    if values != [] {
      var n := |values| - 1;
      CapturesByName(names[..n], values[..n]);
      LastCapture(names, values, n, ByName(names[..n], values[..n]));
    }
  }

  lemma {:induction false} LastCapture(names: seq<string>, values: seq<string>, n: nat, front: map<string, string>)
    requires Distinct(names) && n < |values| && n < |names|
    requires front.Keys == set i | 0 <= i < n :: names[..n][i]
    requires forall i :: 0 <= i < n ==> names[..n][i] in front && front[names[..n][i]] == values[..n][i]
    ensures names[n] !in front
    ensures front[names[n] := values[n]].Keys == set i | 0 <= i < n + 1 :: names[i]
    ensures forall i :: 0 <= i < n + 1 ==> front[names[n] := values[n]][names[i]] == values[i]
  {
    assert forall i :: 0 <= i < n ==> names[..n][i] == names[i] && values[..n][i] == values[i];
  }
}
