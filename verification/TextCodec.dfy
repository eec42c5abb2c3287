/** Trimming, splitting, percent-encoding and query strings of httplib.h.

    Every loop of the source is a method here, proved against a function; the laws are proved about the
    functions. */
module TextCodec {
  import opened Wrappers
  import opened Bytes

  // ---------------------------------------------------------------- trimming

  predicate IsBlank(c: char) {
    c == ' ' || c == '\t'
  }

  function ToLower(c: char): char {
    if 'A' <= c <= 'Z' then (c as nat + 32) as char else c
  }

  /** `isspace` in the C locale, and the class `\s` of the regular expressions. */
  predicate IsSpace(c: char) {
    c == ' ' || '\t' <= c <= '\r'
  }

  function SkipSpaces(s: string): (r: string)
    ensures |r| <= |s| && r == s[|s| - |r|..]
    ensures s != "" && !IsSpace(s[0]) ==> r == s
  {
    if s == "" || !IsSpace(s[0]) then s else SkipSpaces(s[1..])
  }

  function TrimLeft(s: string): (r: string)
    ensures |r| <= |s|
    ensures r != "" ==> !IsBlank(r[0])
    ensures s != "" && !IsBlank(s[0]) ==> r == s
  {
    if s == "" || !IsBlank(s[0]) then s else TrimLeft(s[1..])
  }

  function TrimRight(s: string): (r: string)
    ensures |r| <= |s| && r == s[..|r|]
    ensures r != "" ==> !IsBlank(r[|r| - 1])
    ensures s != "" && !IsBlank(s[|s| - 1]) ==> r == s
  {
    if s == "" || !IsBlank(s[|s| - 1]) then s else TrimRight(s[..|s| - 1])
  }

  function Trim(s: string): (r: string)
    ensures |r| <= |s|
    ensures r != "" ==> !IsBlank(r[0]) && !IsBlank(r[|r| - 1])
  {
    TrimRight(TrimLeft(s))
  }

  /** Neither end is a blank, so trimming changes nothing. */
  predicate Trimmed(s: string) {
    s == "" || (!IsBlank(s[0]) && !IsBlank(s[|s| - 1]))
  }

  lemma {:induction false} TrimOfTrimmed(s: string)
    ensures Trimmed(s) <==> Trim(s) == s
  {}

  lemma {:induction false} TrimIsSlice(s: string) returns (i: nat, j: nat)
    ensures i <= j <= |s| && Trim(s) == s[i..j]
    ensures forall k :: 0 <= k < i || j <= k < |s| ==> IsBlank(s[k])
  {
    i := TrimLeftIsSlice(s);
    j := i + |TrimRight(s[i..])|;
    TrimRightDropsBlanks(s[i..]);
    forall k | j <= k < |s| ensures IsBlank(s[k]) {
      assert s[k] == s[i..][k - i];
    }
  }

  lemma {:induction false} TrimLeftIsSlice(s: string) returns (i: nat)
    ensures i <= |s| && TrimLeft(s) == s[i..]
    ensures forall k :: 0 <= k < i ==> IsBlank(s[k])
  {
    if s == "" || !IsBlank(s[0]) {
      i := 0;
    } else {
      var i' := TrimLeftIsSlice(s[1..]);
      i := i' + 1;
      forall k | 0 <= k < i ensures IsBlank(s[k]) {
        assert k > 0 ==> s[k] == s[1..][k - 1];
      }
    }
  }

  lemma {:induction false} TrimRightDropsBlanks(s: string)
    ensures forall k :: |TrimRight(s)| <= k < |s| ==> IsBlank(s[k])
  {
    if s != "" && IsBlank(s[|s| - 1]) {
      TrimRightDropsBlanks(s[..|s| - 1]);
    }
  }

  /** A slice with only blanks around it and none at its ends is the trimmed text. */
  lemma {:induction false} TrimUnique(s: string, i: nat, j: nat)
    requires i <= |s| && j <= |s|
    requires forall k :: 0 <= k < |s| && (k < i || j <= k) ==> IsBlank(s[k])
    requires i < j ==> !IsBlank(s[i]) && !IsBlank(s[j - 1])
    ensures i < j ==> Trim(s) == s[i..j]
    ensures i >= j ==> Trim(s) == ""
  {
    var a, b := TrimIsSlice(s);
    if a < b {
      assert s[a] == Trim(s)[0] && s[b - 1] == Trim(s)[b - a - 1];
    }
    if i < j {
      assert a <= i && j <= b;
    }
  }

  /** `trim(b, e, left, right)`: the left cursor is bounded by the end of the buffer and the right one by
      its start, not by each other, so on an all-blank range they may cross. The range is cut from `s`
      at non-blank neighbours, as `split` does. */
  method TrimRange(s: string, left: nat, right: nat) returns (l: nat, r: nat)
    requires left <= right <= |s|
    requires right < |s| ==> !IsBlank(s[right])
    requires left > 0 ==> !IsBlank(s[left - 1])
    ensures l < r ==> r <= |s| && s[l..r] == Trim(s[left..right])
    ensures l < r <==> Trim(s[left..right]) != ""
  {
    l, r := left, right;
    while l < |s| && IsBlank(s[l])
      invariant left <= l <= right
      invariant forall k :: left <= k < l ==> IsBlank(s[k])
    {
      l := l + 1;
    }
    while r > 0 && IsBlank(s[r - 1])
      invariant left <= r <= right
      invariant forall k :: r <= k < right ==> IsBlank(s[k])
    {
      r := r - 1;
    }
    TrimSlice(s, left, right, l, r);
  }

  lemma {:induction false} TrimSlice(s: string, left: nat, right: nat, l: nat, r: nat)
    requires left <= l <= right <= |s| && left <= r <= right
    requires forall k :: left <= k < l || r <= k < right ==> IsBlank(s[k])
    requires l < r ==> !IsBlank(s[l]) && !IsBlank(s[r - 1])
    ensures if l < r then s[l..r] == Trim(s[left..right]) != "" else Trim(s[left..right]) == ""
  {
    var t := s[left..right];
    forall k | 0 <= k < |t| && (k < l - left || r - left <= k) ensures IsBlank(t[k]) {
      assert t[k] == s[left + k];
    }
    TrimUnique(t, l - left, r - left);
    if l < r {
      SliceOfSlice(s, left, right, l - left, r - left);
    }
  }

  function TrimQuotes(s: string): (r: string)
    ensures |r| <= |s|
  {
    if |s| >= 2 && s[0] == '"' && s[|s| - 1] == '"' then s[1..|s| - 1] else s
  }

  // --------------------------------------------------------------- splitting

  /** The pieces of `s` between occurrences of `d`: always at least one. */
  function Segments(s: string, d: char): (r: seq<string>)
    ensures r != []
    ensures forall k :: 0 <= k < |r| ==> d !in r[k]
    decreases |s|
  {
    var i := Find(s, [d]);
    if i == |s| then
      NoneFound(s, d);
      [s]
    else
      BeforeFirst(s, d);
      [s[..i]] + Segments(s[i + 1..], d)
  }

  lemma {:induction false} SegmentsOfCons(s: string, d: char, rest: string)
    requires d !in s
    ensures Segments(s + [d] + rest, d) == [s] + Segments(rest, d)
  {
    var t := s + [d] + rest;
    FindChar(s, d, rest);
    assert t[..|s|] == s && t[|s| + 1..] == rest;
  }

  lemma {:induction false} SegmentsOfOne(s: string, d: char)
    requires d !in s
    ensures Segments(s, d) == [s]
  {
    NoneFound(s, d);
  }

  /** Trim every piece and drop the ones that become empty. */
  function Clean(pieces: seq<string>): (r: seq<string>)
    ensures forall k :: 0 <= k < |r| ==> r[k] != "" && Trimmed(r[k])
  {
    if pieces == [] then []
    else (if Trim(pieces[0]) == "" then [] else [Trim(pieces[0])]) + Clean(pieces[1..])
  }

  function Split(s: string, d: char): seq<string> {
    Clean(Segments(s, d))
  }

  lemma {:induction false} CleanOne(piece: string)
    ensures Clean([piece]) == if Trim(piece) == "" then [] else [Trim(piece)]
  {}

  lemma {:induction false} CleanCons(head: string, tail: seq<string>)
    ensures Clean([head] + tail) == Clean([head]) + Clean(tail)
  {
    CleanOne(head);
    assert ([head] + tail)[1..] == tail;
  }

  lemma {:induction false} SplitCons(s: string, d: char, rest: string)
    requires d !in s
    ensures Split(s + [d] + rest, d) == Clean([s]) + Split(rest, d)
  {
    SegmentsOfCons(s, d, rest);
    CleanCons(s, Segments(rest, d));
  }

  /** What the loop has collected, with what the rest of the text gives, is the whole split. */
  ghost predicate SplitSoFar(s: string, d: char, beg: nat, done: seq<string>, all: seq<string>)
    requires beg <= |s|
  {
    done + Split(s[beg..], d) == all
  }

  /** No `d` from `a` up to `b`. */
  predicate FreeOf(s: string, d: char, a: nat, b: nat) {
    forall k :: a <= k < b && k < |s| ==> s[k] != d
  }

  lemma {:induction false} FreeSlice(s: string, d: char, a: nat, b: nat)
    requires a <= b <= |s| && FreeOf(s, d, a, b)
    ensures d !in s[a..b]
  {
    assert forall k :: 0 <= k < b - a ==> s[a..b][k] == s[a + k];
  }

  lemma {:induction false} AroundAt(s: string, a: nat, i: nat)
    requires a <= i < |s|
    ensures s[a..] == s[a..i] + [s[i]] + s[i + 1..]
  {}

  /** The scan stands at a separator, in a piece begun at `beg`. */
  lemma {:induction false} SplitAt(s: string, d: char, beg: nat, i: nat, done: seq<string>, all: seq<string>)
    requires beg <= i < |s| && s[i] == d && FreeOf(s, d, beg, i) && SplitSoFar(s, d, beg, done, all)
    ensures SplitSoFar(s, d, i + 1, done + Clean([s[beg..i]]), all)
  {
    FreeSlice(s, d, beg, i);
    SplitCons(s[beg..i], d, s[i + 1..]);
    AroundAt(s, beg, i);
    Regroup(done, Clean([s[beg..i]]), Split(s[i + 1..], d));
  }

  lemma {:induction false} SplitLast(s: string, d: char, beg: nat, done: seq<string>, all: seq<string>)
    requires beg <= |s| && FreeOf(s, d, beg, |s|) && SplitSoFar(s, d, beg, done, all)
    ensures done + Clean([s[beg..|s|]]) == all
    ensures s == "" ==> done == all
  {
    FreeSlice(s, d, beg, |s|);
    SegmentsOfOne(s[beg..], d);
    assert s[beg..|s|] == s[beg..];
    CleanOne(s[beg..]);
  }

  lemma {:induction false} CleanTwo(a: string, b: string)
    requires Trim(a) != "" && Trim(b) != ""
    ensures Clean([a] + [b]) == [Trim(a), Trim(b)]
  {
    assert ([a] + [b])[1..] == [b];
    CleanOne(b);
  }

  /** The callback for one piece, if trimming leaves anything of it. */
  method EmitPiece(s: string, beg: nat, i: nat, out: seq<string>) returns (r: seq<string>)
    requires beg <= i <= |s|
    requires i < |s| ==> !IsBlank(s[i])
    requires beg > 0 ==> !IsBlank(s[beg - 1])
    ensures r == out + Clean([s[beg..i]])
  {
    CleanOne(s[beg..i]);
    var left, right := TrimRange(s, beg, i);
    if left < right { r := out + [s[left..right]]; } else { r := out; }
  }

  /** `split`: the callback's arguments are collected in order. */
  method SplitLoop(s: string, d: char) returns (out: seq<string>)
    requires !IsBlank(d)
    ensures out == Split(s, d)
  {
    out := [];
    var i, beg := 0, 0;
    ghost var all := Split(s, d);
    assert s[0..] == s && [] + all == all;
    while i < |s|
      invariant 0 <= beg <= i <= |s|
      invariant FreeOf(s, d, beg, i)
      invariant beg > 0 ==> s[beg - 1] == d
      invariant SplitSoFar(s, d, beg, out, all)
    {
      if s[i] == d {
        SplitAt(s, d, beg, i, out, all);
        out := EmitPiece(s, beg, i, out);
        beg := i + 1;
      }
      i := i + 1;
    }
    SplitLast(s, d, beg, out, all);
    if i > 0 {
      out := EmitPiece(s, beg, i, out);
    }
  }

  /** Pieces that contain no separator and need no trimming come back from their joined text. */
  function Join(pieces: seq<string>, d: char): string {
    if pieces == [] then ""
    else if |pieces| == 1 then pieces[0]
    else pieces[0] + [d] + Join(pieces[1..], d)
  }

  lemma {:induction false} SplitOfJoin(pieces: seq<string>, d: char)
    requires forall k :: 0 <= k < |pieces| ==> d !in pieces[k] && pieces[k] != "" && Trimmed(pieces[k])
    ensures Split(Join(pieces, d), d) == pieces
  {
    if pieces == [] {
      SegmentsOfOne("", d);
      CleanOne("");
    } else if |pieces| == 1 {
      SegmentsOfOne(pieces[0], d);
      CleanOne(pieces[0]);
      assert pieces == [pieces[0]];
    } else {
      SegmentsOfCons(pieces[0], d, Join(pieces[1..], d));
      SplitOfJoin(pieces[1..], d);
    }
  }

  /** One `key=value` text: the first non-empty piece is the key and the last other one the value. */
  function KeyValue(kv: string): (string, string) {
    var pieces := Split(kv, '=');
    if pieces == [] then ("", "")
    else (pieces[0], if |pieces| == 1 then "" else pieces[|pieces| - 1])
  }

  /** Further equals signs: the text behind the last one is the value. */
  lemma {:induction false} KeyValueReads(pieces: seq<string>)
    requires pieces != []
    requires forall k :: 0 <= k < |pieces| ==> '=' !in pieces[k] && pieces[k] != "" && Trimmed(pieces[k])
    ensures KeyValue(Join(pieces, '=')) == (pieces[0], if |pieces| == 1 then "" else pieces[|pieces| - 1])
  {
    SplitOfJoin(pieces, '=');
  }

  /** Keep the first of equal texts, as the `cache` set does. */
  function Dedup<T(==)>(items: seq<T>): seq<T> {
    if items == [] then []
    else
      var front := Dedup(items[..|items| - 1]);
      if items[|items| - 1] in items[..|items| - 1] then front else front + [items[|items| - 1]]
  }

  predicate Distinct<T(==)>(items: seq<T>) {
    forall i, j :: 0 <= i < j < |items| ==> items[i] != items[j]
  }

  lemma {:induction false} DedupKeepsDistinct<T>(items: seq<T>)
    ensures Distinct(Dedup(items))
    ensures forall k :: 0 <= k < |items| ==> items[k] in Dedup(items)
    ensures forall k :: 0 <= k < |Dedup(items)| ==> Dedup(items)[k] in items
    ensures Distinct(items) ==> Dedup(items) == items
  {
    if items != [] {
      var front, last := items[..|items| - 1], items[|items| - 1];
      DedupKeepsDistinct(front);
      assert items == front + [last];
      assert last in front <==> last in Dedup(front);
    }
  }

  function KeyValues(texts: seq<string>): (r: seq<(string, string)>)
    ensures |r| <= |texts|
  {
    if texts == [] then [] else OnePair(texts[0]) + KeyValues(texts[1..])
  }

  /** What both `parse_query_text` and `parse_disposition_params` hand to their `emplace`. */
  function ParsedPairs(s: string, d: char): seq<(string, string)> {
    KeyValues(Dedup(Split(s, d)))
  }

  /** What one text adds. */
  function OnePair(t: string): seq<(string, string)> {
    if KeyValue(t).0 == "" then [] else [KeyValue(t)]
  }

  lemma {:induction false} KeyValuesSnoc(texts: seq<string>, t: string)
    ensures KeyValues(texts + [t]) == KeyValues(texts) + OnePair(t)
  {
    if texts == [] {
      assert [] + [t] == [t] && [t][1..] == [];
    } else {
      assert (texts + [t])[1..] == texts[1..] + [t];
      KeyValuesSnoc(texts[1..], t);
      Regroup(OnePair(texts[0]), KeyValues(texts[1..]), OnePair(t));
    }
  }

  lemma {:induction false} DedupSnoc<T>(items: seq<T>, x: T)
    ensures Dedup(items + [x]) == if x in items then Dedup(items) else Dedup(items) + [x]
  {
    assert (items + [x])[..|items|] == items;
  }

  /** The inner `split` of one text at '='. */
  method KeyValueLoop(kv: string) returns (key: string, val: string)
    ensures (key, val) == KeyValue(kv)
  {
    key, val := "", "";
    var pieces := SplitLoop(kv, '=');
    for m := 0 to |pieces|
      invariant key == if m == 0 then "" else pieces[0]
      invariant val == if m <= 1 then "" else pieces[m - 1]
    {
      if key == "" { key := pieces[m]; } else { val := pieces[m]; }
    }
  }

  /** The pairs of the first `n` texts. */
  function PairsUpTo(texts: seq<string>, n: nat): seq<(string, string)>
    requires n <= |texts|
  {
    KeyValues(Dedup(texts[..n]))
  }

  lemma {:induction false} ParsedPairsStep(texts: seq<string>, n: nat)
    requires n < |texts|
    ensures PairsUpTo(texts, n + 1)
         == if texts[n] in texts[..n] || KeyValue(texts[n]).0 == "" then PairsUpTo(texts, n)
            else PairsUpTo(texts, n) + [KeyValue(texts[n])]
  {
    assert texts[..n] + [texts[n]] == texts[..n + 1];
    DedupSnoc(texts[..n], texts[n]);
    KeyValuesSnoc(Dedup(texts[..n]), texts[n]);
  }

  /** The shared body of `parse_query_text` and `parse_disposition_params`: nested `split` calls with a
      `cache` of the texts already seen, the pairs collected in the order of the `emplace` calls. */
  method ParsePairsLoop(s: string, d: char) returns (pairs: seq<(string, string)>)
    requires !IsBlank(d)
    ensures pairs == ParsedPairs(s, d)
  {
    var texts := SplitLoop(s, d);
    pairs := CollectPairs(texts);
  }

  method CollectPairs(texts: seq<string>) returns (pairs: seq<(string, string)>)
    ensures pairs == KeyValues(Dedup(texts))
  {
    var cache: set<string> := {};
    pairs := [];
    assert texts[..0] == [];
    for n := 0 to |texts|
      invariant forall x :: x in cache <==> x in texts[..n]
      invariant pairs == PairsUpTo(texts, n)
    {
      ParsedPairsStep(texts, n);
      assert texts[..n + 1] == texts[..n] + [texts[n]];
      var kv := texts[n];
      if kv !in cache {
        cache := cache + {kv};
        var key, val := KeyValueLoop(kv);
        if key != "" {
          pairs := pairs + [(key, val)];
        }
      }
    }
    assert texts[..|texts|] == texts;
  }

  // -------------------------------------------------------- percent-encoding

  function HexDigit(c: char): Option<nat> {
    if '0' <= c <= '9' then Some(c as nat - '0' as nat)
    else if 'A' <= c <= 'F' then Some(c as nat - 'A' as nat + 10)
    else if 'a' <= c <= 'f' then Some(c as nat - 'a' as nat + 10)
    else None
  }

  /** The value of `cnt` hexadecimal digits of `s` from position `i`. */
  function HexValue(s: string, i: nat, cnt: nat): (r: Option<nat>)
    ensures r.Some? ==> i + cnt <= |s| || cnt == 0
    decreases cnt
  {
    if cnt == 0 then Some(0)
    else if i + cnt > |s| then None
    else
      match (HexValue(s, i, cnt - 1), HexDigit(s[i + cnt - 1]))
      case (Some(high), Some(low)) => Some(high * 16 + low)
      case _ => None
  }

  /** `from_hex_to_i`. A read at the end of the string sees the terminating NUL, which is no digit. */
  method FromHexToI(s: string, i: nat, cnt: nat) returns (ok: bool, val: nat)
    requires cnt > 0
    ensures ok == HexValue(s, i, cnt).Some?
    ensures ok ==> val == HexValue(s, i, cnt).value
  {
    val := 0;
    if i >= |s| { return false, val; }
    var k := 0;
    while k < cnt
      invariant k <= cnt
      invariant HexValue(s, i, k) == Some(val)
    {
      if i + k >= |s| || HexDigit(s[i + k]).None? {
        HexValueFails(s, i, k, cnt);
        return false, val;
      }
      val := val * 16 + HexDigit(s[i + k]).value;
      k := k + 1;
    }
    return true, val;
  }

  lemma {:induction false} HexValueFails(s: string, i: nat, k: nat, cnt: nat)
    requires k < cnt
    requires i + k >= |s| || HexDigit(s[i + k]).None?
    ensures HexValue(s, i, cnt).None?
  {
    if cnt > k + 1 {
      HexValueFails(s, i, k, cnt - 1);
    }
  }

  /** `to_utf8`: surrogates and codes beyond the last plane give no bytes. */
  function ToUtf8(code: nat): (r: string)
    ensures |r| <= 4
  {
    if code < 0x80 then [code as char]
    else if code < 0x800 then
      [(0xC0 + code / 64 % 32) as char, (0x80 + code % 64) as char]
    else if 0xD800 <= code < 0xE000 then ""
    else if code < 0x10000 then
      [(0xE0 + code / 4096 % 16) as char, (0x80 + code / 64 % 64) as char, (0x80 + code % 64) as char]
    else if code < 0x110000 then
      [(0xF0 + code / 262144 % 8) as char, (0x80 + code / 4096 % 64) as char,
       (0x80 + code / 64 % 64) as char, (0x80 + code % 64) as char]
    else ""
  }

  /** One step of `decode_url` on a non-empty text: what it emits and how much it consumes. */
  function DecodeStep(s: string, plusToSpace: bool): (r: (string, nat))
    requires s != ""
    ensures 1 <= r.1 <= |s|
  {
    if s[0] == '%' && |s| > 1 then
      if s[1] == 'u' then
        match HexValue(s, 2, 4)
        case Some(v) => (ToUtf8(v), 6)
        case None => ("%", 1)
      else
        match HexValue(s, 1, 2)
        case Some(v) => (HexIsByte(s); [v as char], 3)
        case None => ("%", 1)
    else if plusToSpace && s[0] == '+' then (" ", 1)
    else ([s[0]], 1)
  }

  lemma {:induction false} HexIsByte(s: string)
    requires HexValue(s, 1, 2).Some?
    ensures HexValue(s, 1, 2).value < 256
  {
    assert HexValue(s, 1, 2) == Some(HexValue(s, 1, 1).value * 16 + HexDigit(s[2]).value);
    assert HexValue(s, 1, 1) == Some(HexValue(s, 1, 0).value * 16 + HexDigit(s[1]).value);
  }

  lemma {:induction false} HexIsBelow16Bits(s: string)
    requires HexValue(s, 2, 4).Some?
    ensures HexValue(s, 2, 4).value < 65536
  {
    assert HexValue(s, 2, 3).Some? && HexValue(s, 2, 2).Some? && HexValue(s, 2, 1).Some?;
    assert HexValue(s, 2, 1).value < 16;
    assert HexValue(s, 2, 2).value < 256;
    assert HexValue(s, 2, 3).value < 4096;
  }

  function Decode(s: string, plusToSpace: bool): string
    decreases |s|
  {
    if s == "" then ""
    else
      var (out, used) := DecodeStep(s, plusToSpace);
      out + Decode(s[used..], plusToSpace)
  }

  /** One round of the loop of `decode_url` at position `i`: the appended bytes and the bytes used. */
  method DecodeRound(s: string, plusToSpace: bool, i: nat) returns (out: string, used: nat)
    requires i < |s|
    ensures (out, used) == DecodeStep(s[i..], plusToSpace)
  {
    HexValueShift(s, i, 1, 2);
    HexValueShift(s, i, 2, 4);
    out, used := [s[i]], 1;
    if s[i] == '%' && i + 1 < |s| {
      if s[i + 1] == 'u' {
        var ok, val := FromHexToI(s, i + 2, 4);
        if ok {
          out, used := ToUtf8(val), 6;
        }
      } else {
        var ok, val := FromHexToI(s, i + 1, 2);
        if ok {
          HexIsByte(s[i..]);
          out, used := [val as char], 3;
        }
      }
    } else if plusToSpace && s[i] == '+' {
      out := " ";
    }
  }

  /** The decoded text after one more round: `done` is what the earlier rounds produced. */
  lemma {:induction false} DecodeAfterRound(s: string, plusToSpace: bool, i: nat, done: string, out: string, used: nat)
    requires i < |s| && (out, used) == DecodeStep(s[i..], plusToSpace)
    ensures i + used <= |s|
    ensures done + Decode(s[i..], plusToSpace) == (done + out) + Decode(s[i + used..], plusToSpace)
  {
    assert s[i..][used..] == s[i + used..];
    Regroup(done, out, Decode(s[i + used..], plusToSpace));
  }

  /** `decode_url`. */
  method DecodeUrl(s: string, plusToSpace: bool) returns (result: string)
    ensures result == Decode(s, plusToSpace)
  {
    result := "";
    var i := 0;
    assert s[0..] == s;
    ghost var goal := Decode(s, plusToSpace);
    while i < |s|
      invariant i <= |s|
      invariant result + Decode(s[i..], plusToSpace) == goal
    {
      var out, used := DecodeRound(s, plusToSpace, i);
      DecodeAfterRound(s, plusToSpace, i, result, out, used);
      result := result + out;
      i := i + used;
    }
  }

  lemma {:induction false} HexValueShift(s: string, i: nat, from: nat, cnt: nat)
    requires i <= |s|
    ensures HexValue(s[i..], from, cnt) == HexValue(s, i + from, cnt)
  {
    if cnt > 0 {
      HexValueShift(s, i, from, cnt - 1);
    }
  }

  predicate IsAlnum(c: char) {
    '0' <= c <= '9' || 'A' <= c <= 'Z' || 'a' <= c <= 'z'
  }

  /** The characters `encode_query_param` leaves alone. */
  predicate SelfEncoding(c: char) {
    || IsAlnum(c) || c == '-' || c == '_' || c == '.' || c == '!' || c == '~' || c == '*' || c == '\''
    || c == '(' || c == ')'
  }

  function UpperHex(v: nat): (c: char)
    requires v < 16
    ensures HexDigit(c) == Some(v) && IsAlnum(c) && c != 'u'
  {
    if v < 10 then ('0' as nat + v) as char else ('A' as nat + v - 10) as char
  }

  function EncodeChar(c: char): (r: string)
    requires c as int < 256
    ensures r != ""
  {
    if SelfEncoding(c) then [c] else ['%', UpperHex(c as nat / 16), UpperHex(c as nat % 16)]
  }

  function Encode(s: string): string
    requires IsBytes(s)
  {
    if s == "" then "" else EncodeChar(s[0]) + Encode(s[1..])
  }

  lemma {:induction false} EncodeAfterRound(s: string, i: nat, done: string)
    requires i < |s| && IsBytes(s)
    ensures done + Encode(s[i..]) == (done + EncodeChar(s[i])) + Encode(s[i + 1..])
  {
    assert s[i..][1..] == s[i + 1..];
    Regroup(done, EncodeChar(s[i]), Encode(s[i + 1..]));
  }

  /** `encode_query_param`. */
  method EncodeQueryParam(value: string) returns (escaped: string)
    requires IsBytes(value)
    ensures escaped == Encode(value)
  {
    escaped := "";
    assert value[0..] == value;
    for i := 0 to |value|
      invariant escaped + Encode(value[i..]) == Encode(value)
    {
      EncodeAfterRound(value, i, escaped);
      var c := value[i];
      if SelfEncoding(c) {
        escaped := escaped + [c];
      } else {
        escaped := escaped + ['%', UpperHex(c as nat / 16), UpperHex(c as nat % 16)];
      }
    }
  }

  lemma {:induction false} DecodeStepOfEncoded(c: char, rest: string, plusToSpace: bool)
    requires c as int < 256
    ensures DecodeStep(EncodeChar(c) + rest, plusToSpace) == ([c], |EncodeChar(c)|)
  {
    var t := EncodeChar(c) + rest;
    if SelfEncoding(c) {
      assert t[0] == c;
    } else {
      var (high, low) := (UpperHex(c as nat / 16), UpperHex(c as nat % 16));
      assert t[0] == '%' && t[1] == high && t[2] == low;
      assert HexValue(t, 1, 0) == Some(0);
      assert HexValue(t, 1, 1) == Some(c as nat / 16);
      assert HexValue(t, 1, 2) == Some(c as nat);
    }
  }

  /** Decoding undoes encoding whichever way '+' is read. */
  lemma {:induction false} DecodeOfEncode(s: string, plusToSpace: bool)
    requires IsBytes(s)
    ensures Decode(Encode(s), plusToSpace) == s
  {
    if s != "" {
      DecodeOfEncode(s[1..], plusToSpace);
      var head := EncodeChar(s[0]);
      DecodeStepOfEncoded(s[0], Encode(s[1..]), plusToSpace);
      assert Encode(s)[|head|..] == Encode(s[1..]);
    }
  }

  lemma {:induction false} EncodeAlphabet(s: string)
    requires IsBytes(s)
    ensures forall i :: 0 <= i < |Encode(s)| ==> SelfEncoding(Encode(s)[i]) || Encode(s)[i] == '%'
    ensures s != "" ==> Encode(s) != ""
  {
    if s != "" {
      EncodeAlphabet(s[1..]);
    }
  }

  /** Decoding never makes a text longer. */
  lemma {:induction false} DecodeNotLonger(s: string, plusToSpace: bool)
    ensures |Decode(s, plusToSpace)| <= |s|
    decreases |s|
  {
    if s != "" {
      if s[0] == '%' && |s| > 1 && s[1] == 'u' && HexValue(s, 2, 4).Some? {
        HexIsBelow16Bits(s);
      }
      DecodeNotLonger(s[DecodeStep(s, plusToSpace).1..], plusToSpace);
    }
  }
}
