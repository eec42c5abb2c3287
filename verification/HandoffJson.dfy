/** A JSON reader after RFC 8259, and what it makes of the agent handoff (frontend/src-tauri/src/agent_handoff.rs):
    the exported text is read back to exactly the snapshot of the record. Fractions, exponents and escaped surrogate
    pairs, which the export never has, are not read. */
module HandoffJson {
  import opened Wrappers
  import opened Bytes
  import opened AgentHandoff
  import opened HandoffSave

  // ------------------------------------------------------------------- the reader

  predicate IsWhite(c: char) { c == ' ' || c == '\n' || c == '\r' || c == '\t' }

  function SkipWhite(s: string): (r: string)
    ensures |r| <= |s|
  {
    if s != "" && IsWhite(s[0]) then SkipWhite(s[1..]) else s
  }

  function DigitValue(c: char): (r: Option<nat>)
    ensures r.Some? ==> r.value < 10
  {
    if '0' <= c <= '9' then Some(c as int - '0' as int) else None
  }

  function HexOf(c: char): Option<nat> {
    if '0' <= c <= '9' then Some(c as int - '0' as int)
    else if 'a' <= c <= 'f' then Some(c as int - 'a' as int + 10)
    else if 'A' <= c <= 'F' then Some(c as int - 'A' as int + 10)
    else None
  }

  /** The digits a text starts with, read behind the number `v`, and what follows them. */
  function ReadDigits(s: string, v: nat): (r: (nat, string))
    ensures |r.1| <= |s|
  {
    if s != "" && DigitValue(s[0]).Some? then ReadDigits(s[1..], v * 10 + DigitValue(s[0]).value) else (v, s)
  }

  function Signed(negative: bool, v: nat): int { if negative then 0 - v else v }

  function ReadNumber(s: string): (r: Option<(int, string)>)
    ensures r.Some? ==> |r.value.1| < |s|
  {
    var negative := s != "" && s[0] == '-';
    var t := if negative then s[1..] else s;
    if t == "" || DigitValue(t[0]).None? then None
    else
      var (v, rest) := ReadDigits(t[1..], DigitValue(t[0]).value);
      Some((Signed(negative, v), rest))
  }

  /** The character that an escape behind its backslash stands for, and how long the escape is. */
  function ReadEscape(s: string): (r: Option<(char, nat)>)
    ensures r.Some? ==> 1 <= r.value.1 <= |s|
  {
    if s == "" then None
    else if s[0] == '"' || s[0] == '\\' || s[0] == '/' then Some((s[0], 1))
    else if s[0] == 'b' then Some((8 as char, 1))
    else if s[0] == 't' then Some((9 as char, 1))
    else if s[0] == 'n' then Some((10 as char, 1))
    else if s[0] == 'f' then Some((12 as char, 1))
    else if s[0] == 'r' then Some((13 as char, 1))
    else if s[0] == 'u' && |s| >= 5 then
      match (HexOf(s[1]), HexOf(s[2]), HexOf(s[3]), HexOf(s[4]))
      case (Some(a), Some(b), Some(c), Some(d)) =>
        var v := a * 4096 + b * 256 + c * 16 + d;
        if v < 0xD800 then Some((v as char, 5)) else None
      case _ => None
    else None
  }

  /** The string behind its opening quote, up to the closing one. */
  function ReadString(s: string): (r: Option<(string, string)>)
    ensures r.Some? ==> |r.value.1| < |s|
    decreases |s|
  {
    if s == "" || s[0] as int < 32 then None
    else if s[0] == '"' then Some(("", s[1..]))
    else
      var one := if s[0] != '\\' then Some((s[0], 0)) else ReadEscape(s[1..]);
      if one.None? then None
      else
        match ReadString(s[1 + one.value.1..])
        case None => None
        case Some((t, rest)) => Some(([one.value.0] + t, rest))
  }

  /** The value a text starts with, and what follows it. */
  function ReadValue(s: string): (r: Option<(Value, string)>)
    ensures r.Some? ==> |r.value.1| < |s|
    decreases |s|, 0
  {
    if StartsWith(s, "null") then Some((Null, s[4..]))
    else if StartsWith(s, "true") then Some((Bool(true), s[4..]))
    else if StartsWith(s, "false") then Some((Bool(false), s[5..]))
    else if s == "" then None
    else if s[0] == '"' then
      (match ReadString(s[1..]) case None => None case Some((t, rest)) => Some((Str(t), rest)))
    else if s[0] == '[' then
      (match ReadItems(SkipWhite(s[1..]), true) case None => None case Some((items, rest)) => Some((Arr(items), rest)))
    else if s[0] == '{' then
      (match ReadMembers(SkipWhite(s[1..]), true) case None => None case Some((ms, rest)) => Some((Obj(ms), rest)))
    else
      match ReadNumber(s) case None => None case Some((n, rest)) => Some((Number(n), rest))
  }

  /** Items up to the closing bracket; an empty list is possible only at the start. */
  function ReadItems(s: string, start: bool): (r: Option<(seq<Value>, string)>)
    ensures r.Some? ==> |r.value.1| < |s|
    decreases |s|, 1
  {
    if start && s != "" && s[0] == ']' then Some(([], s[1..]))
    else
      match ReadValue(s)
      case None => None
      case Some((v, rest)) =>
        var t := SkipWhite(rest);
        if t != "" && t[0] == ']' then Some(([v], t[1..]))
        else if t != "" && t[0] == ',' then
          match ReadItems(SkipWhite(t[1..]), false)
          case None => None
          case Some((more, rest2)) => Some(([v] + more, rest2))
        else None
  }

  function ReadMember(s: string): (r: Option<((string, Value), string)>)
    ensures r.Some? ==> |r.value.1| < |s|
    decreases |s|, 1
  {
    if s == "" || s[0] != '"' then None
    else
      match ReadString(s[1..])
      case None => None
      case Some((key, rest)) =>
        var t := SkipWhite(rest);
        if t == "" || t[0] != ':' then None
        else
          match ReadValue(SkipWhite(t[1..]))
          case None => None
          case Some((v, rest2)) => Some(((key, v), rest2))
  }

  /** Members up to the closing brace. */
  function ReadMembers(s: string, start: bool): (r: Option<(seq<(string, Value)>, string)>)
    ensures r.Some? ==> |r.value.1| < |s|
    decreases |s|, 2
  {
    if start && s != "" && s[0] == '}' then Some(([], s[1..]))
    else
      match ReadMember(s)
      case None => None
      case Some((m, rest)) =>
        var t := SkipWhite(rest);
        if t != "" && t[0] == '}' then Some(([m], t[1..]))
        else if t != "" && t[0] == ',' then
          match ReadMembers(SkipWhite(t[1..]), false)
          case None => None
          case Some((more, rest2)) => Some(([m] + more, rest2))
        else None
  }

  /** A text that is one JSON value and white space. */
  function ReadJson(s: string): Option<Value> {
    match ReadValue(SkipWhite(s))
    case None => None
    case Some((v, rest)) => if SkipWhite(rest) == "" then Some(v) else None
  }

  // ------------------------------------------------------------- strings, numbers

  lemma {:induction false} EscapeReads(c: char, rest: string)
    ensures var e := EscapeChar(c);
            if e == [c] then c != '\\' && c != '"' && c as int >= 32
            else |e| > 1 && e[0] == '\\' && ReadEscape(e[1..] + rest) == Some((c, |e| - 1))
  {
    var e := EscapeChar(c);
    if c as int < 32 && e[1] == 'u' {
      var t := e[1..] + rest;
      assert t[0] == 'u' && t[1] == '0' && t[2] == '0' && t[3] == HexDigitOf(c as int / 16)
             && t[4] == HexDigitOf(c as int % 16);
    } else if e != [c] {
      assert (e[1..] + rest)[0] == e[1];
    }
  }

  /** The reader takes one escaped character. */
  lemma {:induction false} CharReads(c: char, e: string, more: string, s: string, rest: string)
    requires e == EscapeChar(c) && ReadString(more) == Some((s, rest))
    ensures ReadString(e + more) == Some(([c] + s, rest))
  {
    EscapeReads(c, more);
    var t := e + more;
    assert t[0] == e[0] && t[|e|..] == more;
    assert t[1..] == e[1..] + more;
  }

  lemma {:induction false} StringReads(s: string, rest: string)
    ensures ReadString(Escape(s) + ("\"" + rest)) == Some((s, rest))
  {
    if s == "" {
      assert ("" + ("\"" + rest))[1..] == rest;
    } else {
      var (e, tail) := (EscapeChar(s[0]), Escape(s[1..]));
      StringReads(s[1..], rest);
      CharReads(s[0], e, tail + ("\"" + rest), s[1..], rest);
      Regroup(e, tail, "\"" + rest);
      assert [s[0]] + s[1..] == s;
    }
  }

  lemma {:induction false} QuotedReads(s: string, rest: string)
    ensures (Quoted(s) + rest)[0] == '"' && ReadString((Quoted(s) + rest)[1..]) == Some((s, rest))
  {
    assert (Quoted(s) + rest)[1..] == Escape(s) + ("\"" + rest);
    StringReads(s, rest);
  }

  predicate NoDigit(rest: string) { rest == "" || DigitValue(rest[0]).None? }

  lemma {:induction false} DigitsRead(n: nat, v: nat, rest: string)
    requires NoDigit(rest)
    ensures ReadDigits(Digits(n) + rest, v) == (Shifted(v, n), rest)
    ensures DigitValue(Digits(n)[0]).Some?
    decreases n
  {
    DigitsReadOn(n, v, rest);
    assert ReadDigits(rest, Shifted(v, n)) == (Shifted(v, n), rest);
  }

  /** The number whose digits are those of `v` followed by those of `n`. */
  function Shifted(v: nat, n: nat): nat {
    (if n < 10 then v else Shifted(v, n / 10)) * 10 + n % 10
  }

  lemma {:induction false} DigitReads(k: nat, v: nat, rest: string)
    requires k < 10
    ensures ReadDigits([Digit(k)] + rest, v) == ReadDigits(rest, v * 10 + k)
  {
    assert ([Digit(k)] + rest)[1..] == rest;
  }

  lemma {:induction false} DigitsReadOn(n: nat, v: nat, rest: string)
    ensures ReadDigits(Digits(n) + rest, v) == ReadDigits(rest, Shifted(v, n))
    ensures DigitValue(Digits(n)[0]).Some?
    decreases n
  {
    var (k, high) := (n % 10, n / 10);
    if n >= 10 {
      var last := [Digit(k)];
      assert Digits(n) == Digits(high) + last;
      DigitsReadOn(high, v, last + rest);
      Regroup(Digits(high), last, rest);
      DigitReads(k, Shifted(v, high), rest);
    } else {
      assert Digits(n) == [Digit(k)];
      DigitReads(k, v, rest);
    }
  }

  lemma {:induction false} ShiftedZero(n: nat)
    ensures Shifted(0, n) == n
  {
    if n >= 10 { ShiftedZero(n / 10); }
  }

  lemma {:induction false} DigitsAreNumber(n: nat, rest: string)
    requires NoDigit(rest)
    ensures var t := Digits(n) + rest;
            t[0] != '-' && DigitValue(t[0]).Some? && ReadDigits(t[1..], DigitValue(t[0]).value) == (n, rest)
  {
    DigitsRead(n, 0, rest);
    ShiftedZero(n);
    var t := Digits(n) + rest;
    assert t[0] == Digits(n)[0];
    assert ReadDigits(t, 0) == ReadDigits(t[1..], 0 * 10 + DigitValue(t[0]).value);
  }

  lemma {:induction false} UnsignedReads(t: string, v: nat, rest: string, negative: bool)
    requires t != "" && t[0] != '-' && DigitValue(t[0]).Some?
    requires ReadDigits(t[1..], DigitValue(t[0]).value) == (v, rest)
    ensures ReadNumber((if negative then "-" else "") + t) == Some((Signed(negative, v), rest))
  {
    if negative { assert ("-" + t)[1..] == t; } else { assert "" + t == t; }
  }

  lemma {:induction false} NumberReads(i: int, rest: string)
    requires NoDigit(rest)
    ensures ReadNumber(Decimal(i) + rest) == Some((i, rest))
    ensures Decimal(i)[0] == '-' || DigitValue(Decimal(i)[0]).Some?
  {
    var n: nat := if i < 0 then -i else i;
    DigitsAreNumber(n, rest);
    UnsignedReads(Digits(n) + rest, n, rest, i < 0);
    Regroup("-", Digits(n), rest);
    assert "" + (Digits(n) + rest) == Digits(n) + rest;
    assert (Digits(n) + rest)[0] == Digits(n)[0];
  }

  // ------------------------------------------------------------------- structure

  lemma {:induction false} SkipNewLine(n: nat, rest: string)
    requires rest != "" && !IsWhite(rest[0])
    ensures SkipWhite(NewLine(n) + rest) == rest
  {
    SkipIndent(n, rest);
    assert (NewLine(n) + rest)[1..] == Indent(n) + rest;
  }

  lemma {:induction false} SkipIndent(n: nat, rest: string)
    requires rest != "" && !IsWhite(rest[0])
    ensures SkipWhite(Indent(n) + rest) == rest
  {
    if n == 0 {
      assert "" + rest == rest;
    } else {
      SkipIndent(n - 1, rest);
      var (a, b) := ("  " + (Indent(n - 1) + rest), " " + (Indent(n - 1) + rest));
      Regroup("  ", Indent(n - 1), rest);
      assert a[1..] == b && b[1..] == Indent(n - 1) + rest;
    }
  }

  /** What a printed value starts with. */
  lemma {:induction false} PrettyStarts(v: Value, n: nat)
    ensures var p := Pretty(v, n);
            && p != "" && !IsWhite(p[0]) && p[0] != ']' && p[0] != '}'
            && (p[0] == '[' <==> v.Arr?) && (p[0] == '{' <==> v.Obj?) && (p[0] == '"' <==> v.Str?)
            && (p[0] == 'n' <==> v.Null?) && (p[0] == 't' <==> v == Bool(true)) && (p[0] == 'f' <==> v == Bool(false))
  {
    if v.Number? { NumberReads(v.n, ""); }
  }

  lemma {:induction false} LiteralReads(v: Value, n: nat, rest: string)
    requires v.Null? || v.Bool?
    ensures ReadValue(Pretty(v, n) + rest) == Some((v, rest))
  {
    var (p, w) := (Pretty(v, n), Pretty(v, n) + rest);
    assert w[..|p|] == p && w[|p|..] == rest;
    assert w[0] == p[0];
  }

  /** Which reader a text goes to. */
  lemma {:induction false} NoLiteral(w: string)
    requires w != "" && w[0] != 'n' && w[0] != 't' && w[0] != 'f'
    ensures !StartsWith(w, "null") && !StartsWith(w, "true") && !StartsWith(w, "false")
  {}

  lemma {:induction false} ReadsOther(w: string)
    requires w != "" && w[0] != 'n' && w[0] != 't' && w[0] != 'f'
    ensures w[0] == '"' ==>
              ReadValue(w) == match ReadString(w[1..]) case None => None case Some((t, rest)) => Some((Str(t), rest))
    ensures w[0] == '[' ==>
              ReadValue(w) == match ReadItems(SkipWhite(w[1..]), true)
                              case None => None case Some((items, rest)) => Some((Arr(items), rest))
    ensures w[0] == '{' ==>
              ReadValue(w) == match ReadMembers(SkipWhite(w[1..]), true)
                              case None => None case Some((ms, rest)) => Some((Obj(ms), rest))
    ensures w[0] != '"' && w[0] != '[' && w[0] != '{' ==>
              ReadValue(w) == match ReadNumber(w) case None => None case Some((n, rest)) => Some((Number(n), rest))
  {
    NoLiteral(w);
  }

  /** A printed value is read back, whatever follows it but a digit. */
  lemma {:induction false} ReadsValue(v: Value, n: nat, rest: string)
    requires NoDigit(rest)
    ensures ReadValue(Pretty(v, n) + rest) == Some((v, rest))
    decreases v, 1
  {
    PrettyStarts(v, n);
    var (p, w) := (Pretty(v, n), Pretty(v, n) + rest);
    assert w[0] == p[0];
    match v {
      case Null => LiteralReads(v, n, rest);
      case Bool(_) => LiteralReads(v, n, rest);
      case Number(i) =>
        NumberReads(i, rest);
        ReadsOther(w);
      case Str(s) =>
        QuotedReads(s, rest);
        ReadsOther(w);
      case Arr(items) =>
        ReadsOther(w);
        ReadsArray(v, n, rest);
      case Obj(members) =>
        ReadsOther(w);
        ReadsObject(v, n, rest);
    }
  }

  /** What closes a list: a new line, the bracket, and the rest. */
  function Close(n: nat, close: string, rest: string): string { NewLine(n) + (close + rest) }

  lemma {:induction false} Unbracket(open_: string, inner: string, n: nat, close: string, rest: string)
    requires |open_| == 1
    ensures ((open_ + inner + NewLine(n) + close) + rest)[1..] == inner + Close(n, close, rest)
  {
    Chained(open_ + inner, NewLine(n), close, rest);
    Regroup(open_, inner, Close(n, close, rest));
  }

  lemma {:induction false} ReadsArray(v: Value, n: nat, rest: string)
    requires v.Arr? && NoDigit(rest)
    ensures ReadItems(SkipWhite((Pretty(v, n) + rest)[1..]), true) == Some((v.items, rest))
    decreases v, 0
  {
    if v.items == [] {
      assert (Pretty(v, n) + rest)[1..] == "]" + rest;
      assert ("]" + rest)[1..] == rest;
    } else {
      Unbracket("[", PrettyItems(v.items, n + 1), n, "]", rest);
      ReadsItems(v.items, n + 1, n, rest, true);
    }
  }

  lemma {:induction false} ReadsObject(v: Value, n: nat, rest: string)
    requires v.Obj? && NoDigit(rest)
    ensures ReadMembers(SkipWhite((Pretty(v, n) + rest)[1..]), true) == Some((v.members, rest))
    decreases v, 0
  {
    if v.members == [] {
      assert (Pretty(v, n) + rest)[1..] == "}" + rest;
      assert ("}" + rest)[1..] == rest;
    } else {
      Unbracket("{", PrettyMembers(v.members, n + 1), n, "}", rest);
      ReadsMembers(v.members, n + 1, n, rest, true);
    }
  }

  lemma {:induction false} ClosesWith(n: nat, close: string, rest: string)
    requires close == "]" || close == "}"
    ensures SkipWhite(Close(n, close, rest)) == close + rest && (close + rest)[1..] == rest
    ensures NoDigit(Close(n, close, rest))
  {
    SkipNewLine(n, close + rest);
    assert Close(n, close, rest)[0] == '\n';
  }

  /** The last item of a list, and one before others. */
  lemma {:induction false} ItemRead(w: string, start: bool, v: Value, u: string, n: nat, rest: string, last: bool,
                                    more: seq<Value>, next: string)
    requires w != "" && w[0] != ']' && ReadValue(w) == Some((v, u))
    requires last ==> u == Close(n, "]", rest) && more == []
    requires !last ==> u == "," + next && ReadItems(SkipWhite(next), false) == Some((more, rest))
    ensures ReadItems(w, start) == Some(([v] + more, rest))
  {
    if last {
      ClosesWith(n, "]", rest);
      assert [v] + more == [v];
    } else {
      assert u[1..] == next;
    }
  }

  lemma {:induction false} ItemsSplit(items: seq<Value>, n: nat, end: string)
    requires items != []
    ensures PrettyItems(items, n) + end
         == NewLine(n) + (Pretty(items[0], n)
                          + if |items| == 1 then end else "," + (PrettyItems(items[1..], n) + end))
  {
    var (a, b) := (NewLine(n), Pretty(items[0], n));
    if |items| == 1 {
      assert "" + end == end;
      Chained(a, b, "", end);
    } else {
      Chained(a, b, "," + PrettyItems(items[1..], n), end);
      Regroup(",", PrettyItems(items[1..], n), end);
    }
  }

  lemma {:induction false} Chained(a: string, b: string, c: string, d: string)
    ensures (a + b + c) + d == a + (b + (c + d))
  {}

  /** A list stands in front of what closes it, or of a comma. */
  lemma {:induction false} EndsList(m: nat, close: string, rest: string, last: bool, next: string, u: string)
    requires close == "]" || close == "}"
    requires u == if last then Close(m, close, rest) else "," + next
    ensures u != "" && NoDigit(u)
  {
    if last { ClosesWith(m, close, rest); }
  }

  lemma {:induction false} ReadsItems(items: seq<Value>, n: nat, m: nat, rest: string, start: bool)
    requires items != []
    ensures ReadItems(SkipWhite(PrettyItems(items, n) + Close(m, "]", rest)), start) == Some((items, rest))
    decreases items, 0
  {
    var (end, v, last) := (Close(m, "]", rest), items[0], |items| == 1);
    var next := if last then "" else PrettyItems(items[1..], n) + end;
    var u := if last then end else "," + next;
    ItemsSplit(items, n, end);
    EndsList(m, "]", rest, last, next, u);
    PrettyStarts(v, n);
    var w := Pretty(v, n) + u;
    assert w[0] == Pretty(v, n)[0];
    SkipNewLine(n, w);
    ReadsValue(v, n, u);
    if !last { ReadsItems(items[1..], n, m, rest, false); }
    ItemRead(w, start, v, u, m, rest, last, items[1..], next);
    assert items == [v] + items[1..];
  }

  lemma {:induction false} BehindColon(value: string)
    requires value != "" && !IsWhite(value[0])
    ensures SkipWhite(": " + value) == ": " + value && SkipWhite((": " + value)[1..]) == value
  {
    assert (": " + value)[1..] == " " + value && (" " + value)[1..] == value;
  }

  lemma {:induction false} KeyAndValue(s: string, key: string, value: string, v: Value, u: string)
    requires s == Quoted(key) + (": " + value) && value != "" && !IsWhite(value[0]) && ReadValue(value) == Some((v, u))
    ensures s[0] == '"' && ReadMember(s) == Some(((key, v), u))
  {
    QuotedReads(key, ": " + value);
    BehindColon(value);
  }

  lemma {:induction false} MemberReads(m: (string, Value), n: nat, u: string)
    requires NoDigit(u)
    ensures ReadMember(PrettyMember(m, n) + u) == Some((m, u))
    ensures (PrettyMember(m, n) + u)[0] == '"'
    decreases m, 0
  {
    var p := Pretty(m.1, n);
    Chained(Quoted(m.0), ": ", p, u);
    PrettyStarts(m.1, n);
    assert (p + u)[0] == p[0];
    ReadsValue(m.1, n, u);
    KeyAndValue(PrettyMember(m, n) + u, m.0, p + u, m.1, u);
    assert m == (m.0, m.1);
  }

  lemma {:induction false} MemberRead(w: string, start: bool, v: (string, Value), u: string, n: nat, rest: string,
                                      last: bool, more: seq<(string, Value)>, next: string)
    requires w != "" && w[0] != '}' && ReadMember(w) == Some((v, u))
    requires last ==> u == Close(n, "}", rest) && more == []
    requires !last ==> u == "," + next && ReadMembers(SkipWhite(next), false) == Some((more, rest))
    ensures ReadMembers(w, start) == Some(([v] + more, rest))
  {
    if last {
      ClosesWith(n, "}", rest);
      assert [v] + more == [v];
    } else {
      assert u[1..] == next;
    }
  }

  lemma {:induction false} MembersSplit(members: seq<(string, Value)>, n: nat, end: string)
    requires members != []
    ensures PrettyMembers(members, n) + end
         == NewLine(n) + (PrettyMember(members[0], n)
                          + if |members| == 1 then end else "," + (PrettyMembers(members[1..], n) + end))
  {
    var (a, b) := (NewLine(n), PrettyMember(members[0], n));
    if |members| == 1 {
      assert "" + end == end;
      Chained(a, b, "", end);
    } else {
      Chained(a, b, "," + PrettyMembers(members[1..], n), end);
      Regroup(",", PrettyMembers(members[1..], n), end);
    }
  }

  lemma {:induction false} ReadsMembers(members: seq<(string, Value)>, n: nat, m: nat, rest: string, start: bool)
    requires members != []
    ensures ReadMembers(SkipWhite(PrettyMembers(members, n) + Close(m, "}", rest)), start) == Some((members, rest))
    decreases members, 0
  {
    var (end, v, last) := (Close(m, "}", rest), members[0], |members| == 1);
    var next := if last then "" else PrettyMembers(members[1..], n) + end;
    var u := if last then end else "," + next;
    MembersSplit(members, n, end);
    EndsList(m, "}", rest, last, next, u);
    MemberReads(v, n, u);
    var w := PrettyMember(v, n) + u;
    SkipNewLine(n, w);
    if !last { ReadsMembers(members[1..], n, m, rest, false); }
    MemberRead(w, start, v, u, m, rest, last, members[1..], next);
    assert members == [v] + members[1..];
  }

  // ------------------------------------------------------------------ the handoff

  /** Printed JSON is read back to the value, at every depth. */
  lemma {:induction false} PrettyReadsBack(v: Value)
    ensures ReadJson(Pretty(v, 0)) == Some(v)
  {
    PrettyStarts(v, 0);
    ReadsValue(v, 0, "");
    assert Pretty(v, 0) + "" == Pretty(v, 0);
  }

  /** The value under a name of an object. */
  function Member(v: Value, key: string): Option<Value> {
    if v.Obj? then FirstNamed(v.members, key) else None
  }

  function FirstNamed(members: seq<(string, Value)>, key: string): Option<Value> {
    if members == [] then None
    else if members[0].0 == key then Some(members[0].1)
    else FirstNamed(members[1..], key)
  }

  predicate HasNumber(v: Value, key: string, n: int) { Member(v, key) == Some(Number(n)) }

  predicate HasText(v: Value, key: string, s: string) { Member(v, key) == Some(Str(s)) }

  /** The snapshot that a consumer of the handoff gets. */
  ghost predicate Holds(v: Value, r: Record) {
    && HasNumber(v, "schema_version", r.schemaVersion)
    && Member(v, "participants") == Some(r.participants)
    && Member(v, "generation") == Some(r.generation)
    && Member(v, "transcript") == Some(r.transcript)
    && exists session ::
         && Member(v, "session") == Some(session)
         && HasText(session, "id", r.id)
         && HasText(session, "title", r.title)
         && HasText(session, "record_type", TypeName(r.recordType))
         && HasNumber(session, "principal_transcript_revision", r.revision)
  }

  lemma {:induction false} NamedAt(members: seq<(string, Value)>, key: string, i: nat)
    requires i < |members| && members[i].0 == key && forall j :: 0 <= j < i ==> members[j].0 != key
    ensures FirstNamed(members, key) == Some(members[i].1)
  {
    if i > 0 { NamedAt(members[1..], key, i - 1); }
  }

  lemma {:induction false} SessionHolds(r: Record)
    ensures HasText(Session(r), "id", r.id) && HasText(Session(r), "title", r.title)
    ensures HasText(Session(r), "record_type", TypeName(r.recordType))
    ensures HasNumber(Session(r), "principal_transcript_revision", r.revision)
  {
    var ms := Session(r).members;
    NamedAt(ms, "id", 0);
    NamedAt(ms, "title", 1);
    NamedAt(ms, "record_type", 2);
    NamedAt(ms, "principal_transcript_revision", 3);
  }

  lemma {:induction false} SnapshotHolds(r: Record)
    ensures Holds(Snapshot(r), r)
  {
    var ms := Snapshot(r).members;
    NamedAt(ms, "schema_version", 0);
    NamedAt(ms, "session", 1);
    NamedAt(ms, "participants", 2);
    NamedAt(ms, "generation", 3);
    NamedAt(ms, "transcript", 4);
    SessionHolds(r);
  }

  /** The JSON export is JSON that holds the record. */
  lemma {:induction false} JsonExportReads(r: Record)
    ensures var v := ReadJson(Serialize(r, Format.Json)); v.Some? && Holds(v.value, r)
  {
    PrettyReadsBack(Snapshot(r));
    SnapshotHolds(r);
  }

  /** The Markdown export begins with the title line, and the text in its fence is JSON that holds the record, unless
      the title line has a fence of its own. */
  lemma {:induction false} MarkdownExportReads(r: Record)
    ensures TITLE + r.title + "\n" <= Serialize(r, Markdown)
    ensures !Contains(r.title + "\n", FENCE) ==>
              var facts := MarkdownFacts(Serialize(r, Markdown));
              facts.Some? && var v := ReadJson(facts.value); v.Some? && Holds(v.value, r)
  {
    HandoffRoundTrip(r);
    JsonExportReads(r);
    var head := TITLE + (r.title + "\n");
    Regroup(TITLE, r.title, "\n");
    assert Serialize(r, Markdown)[..|head|] == head;
  }

  /** The Markdown export, piece by piece. */
  lemma {:induction false} MarkdownFormat(r: Record)
    ensures Serialize(r, Markdown)
         == "# Agent Handoff: " + r.title + "\n\nType: " + TypeName(r.recordType) + "  \nTranscript revision: "
            + Decimal(r.revision) + "\n\n```agent-handoff+json\n" + Serialize(r, Format.Json) + "\n```\n"
  {
    var (a, b, c) := (TypeName(r.recordType), Decimal(r.revision), Serialize(r, Format.Json));
    assert "\n" + "\nType: " == "\n\nType: " && "\n\n" + FENCE == "\n\n```agent-handoff+json\n";
    assert CLOSING + "\n" == "\n```\n";
    Pieces(TITLE, r.title, "\n", "\nType: ", a, "  \nTranscript revision: ", b, "\n\n", FENCE, c, CLOSING);
  }

  lemma {:induction false} Pieces(t: string, title: string, nl: string, type_: string, a: string, rev: string,
                                  b: string, gap: string, fence: string, c: string, close: string)
    ensures t + (title + nl) + (type_ + a + rev + b + gap) + fence + (c + close + nl)
         == t + title + (nl + type_) + a + rev + b + (gap + fence) + c + (close + nl)
  {
    Regroup(t, title, nl);
    FourMore(t + title + nl, type_, a, rev, b);
    var head := t + title + (nl + type_) + a + rev + b;
    Regroup(t + title, nl, type_);
    Regroup(t + title + nl, type_ + a + rev + b, gap);
    assert t + (title + nl) + (type_ + a + rev + b + gap) == head + gap;
    Regroup(head, gap, fence);
    Regroup(head + (gap + fence), c, close + nl);
    Regroup(c, close, nl);
  }

  lemma {:induction false} FourMore(h: string, a: string, b: string, c: string, d: string)
    ensures h + (a + b + c + d) == h + a + b + c + d
  {
    Regroup(h, a + b + c, d);
    Regroup(h, a + b, c);
    Regroup(h, a, b);
  }
}
