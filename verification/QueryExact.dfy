/** Which parameter maps the query string carries: exactly those without repeated pairs whose keys survive
    being written raw. */
module QueryExact {
  import opened Bytes
  import opened TextCodec
  import opened QueryString

  // ------------------------------------------------- splitting joined texts

  lemma {:induction false} SegmentsOfJoined(a: string, d: char, b: string)
    ensures Segments(a + [d] + b, d) == Segments(a, d) + Segments(b, d)
    decreases |a|
  {
    if d in a {
      var i := Find(a, [d]);
      NoneFound(a, d);
      BeforeFirst(a, d);
      FoundAt(a, d, i);
      AroundAt(a, 0, i);
      assert a[0..] == a && a[0..i] == a[..i];
      var tail := a[i + 1..];
      SegmentsOfJoined(tail, d, b);
      assert a + [d] + b == a[..i] + [d] + (tail + [d] + b);
      SegmentsOfCons(a[..i], d, tail + [d] + b);
      SegmentsOfCons(a[..i], d, tail);
      Regroup([a[..i]], Segments(tail, d), Segments(b, d));
    } else {
      SegmentsOfCons(a, d, b);
      SegmentsOfOne(a, d);
    }
  }

  lemma {:induction false} FoundAt(s: string, d: char, i: nat)
    requires i == Find(s, [d]) < |s|
    ensures s[i] == d
  {
    assert s[i..i + 1][0] == s[i];
  }

  lemma {:induction false} CleanStep(head: string, tail: seq<string>, b: seq<string>, cleanTail: seq<string>,
                                     cleanB: seq<string>)
    requires cleanTail == Clean(tail) && Clean(tail + b) == cleanTail + cleanB
    ensures Clean(([head] + tail) + b) == Clean([head] + tail) + cleanB
  {
    CleanCons(head, tail + b);
    CleanCons(head, tail);
    Regroup([head], tail, b);
    Regroup(Clean([head]), cleanTail, cleanB);
  }

  lemma {:induction false} CleanAppend(a: seq<string>, b: seq<string>, cleanB: seq<string>)
    requires cleanB == Clean(b)
    ensures Clean(a + b) == Clean(a) + cleanB
  {
    if a == [] {
      assert a + b == b;
    } else {
      CleanAppend(a[1..], b, cleanB);
      CleanStep(a[0], a[1..], b, Clean(a[1..]), cleanB);
      assert a == [a[0]] + a[1..];
    }
  }

  lemma {:induction false} SplitOfJoined(a: string, d: char, b: string)
    ensures Split(a + [d] + b, d) == Split(a, d) + Split(b, d)
  {
    SegmentsOfJoined(a, d, b);
    CleanAppend(Segments(a, d), Segments(b, d), Split(b, d));
  }

  /** A blank in front of a text changes none of its pieces. */
  lemma {:induction false} BlankInFront(c: char, s: string, d: char)
    requires IsBlank(c) && c != d
    ensures Split([c] + s, d) == Split(s, d)
  {
    var t := [c] + s;
    assert TrimLeft(t) == TrimLeft(s) by { assert t[1..] == s; }
    if d in s {
      var i := Find(s, [d]);
      NoneFound(s, d);
      BeforeFirst(s, d);
      FoundAt(s, d, i);
      AroundAt(s, 0, i);
      assert s[0..] == s && s[0..i] == s[..i];
      assert t == ([c] + s[..i]) + [d] + s[i + 1..];
      SplitCons([c] + s[..i], d, s[i + 1..]);
      SplitCons(s[..i], d, s[i + 1..]);
      BlankThenTrim(c, s[..i]);
    } else {
      SegmentsOfOne(s, d);
      SegmentsOfOne(t, d);
      BlankThenTrim(c, s);
    }
  }

  lemma {:induction false} BlankThenTrim(c: char, s: string)
    requires IsBlank(c)
    ensures Trim([c] + s) == Trim(s) && Clean([[c] + s]) == Clean([s])
  {
    assert ([c] + s)[1..] == s;
    CleanOne([c] + s);
    CleanOne(s);
  }

  lemma {:induction false} TrimmedInFront(s: string, d: char)
    requires !IsBlank(d)
    ensures Split(TrimLeft(s), d) == Split(s, d)
  {
    if s != "" && IsBlank(s[0]) {
      TrimmedInFront(s[1..], d);
      BlankInFront(s[0], s[1..], d);
      assert s == [s[0]] + s[1..];
    }
  }

  /** The pair that the text `key=e` gives, where `pieces` are those of the key: the first of them with `e`, or
      `e` in its place. */
  function PairOfPieces(pieces: seq<string>, e: string): Pair {
    if pieces == [] then (e, "")
    else (pieces[0], if e != "" then e else if |pieces| == 1 then "" else pieces[|pieces| - 1])
  }

  lemma {:induction false} PiecesOfText(key: string, e: string)
    requires '=' !in e && Trimmed(e)
    ensures Split(key + "=" + e, '=') == Split(key, '=') + if e == "" then [] else [e]
  {
    assert key + "=" + e == key + ['='] + e;
    SplitOfJoined(key, '=', e);
    SegmentsOfOne(e, '=');
    CleanOne(e);
  }

  lemma {:induction false} KeyValueOfText(key: string, e: string)
    requires '=' !in e && Trimmed(e)
    ensures KeyValue(Trim(key + "=" + e)) == PairOfPieces(Split(key, '='), e)
  {
    PiecesOfText(key, e);
    TrimmedInFront(key + "=" + e, '=');
    RightEndStays(key, e);
  }

  lemma {:induction false} RightEndStays(key: string, e: string)
    requires Trimmed(e)
    ensures Trim(key + "=" + e) == TrimLeft(key + "=" + e)
  {
    var t := key + "=" + e;
    var i := TrimLeftIsSlice(t);
    assert t[|t| - 1] == if e == "" then '=' else e[|e| - 1];
    assert !IsBlank(t[|t| - 1]);
    assert t[i..] != "" ==> t[i..][|t[i..]| - 1] == t[|t| - 1];
  }

  // ------------------------------------------------------------------ totals

  function Total(f: Pair -> nat, p: seq<Pair>): nat {
    if p == [] then 0 else Total(f, p[..|p| - 1]) + f(p[|p| - 1])
  }

  lemma {:induction false} TotalSnoc(f: Pair -> nat, p: seq<Pair>, kv: Pair)
    ensures Total(f, p + [kv]) == Total(f, p) + f(kv)
  {
    assert (p + [kv])[..|p|] == p;
  }

  lemma {:induction false} EmplaceTotal(f: Pair -> nat, p: seq<Pair>, kv: Pair)
    ensures Total(f, Emplace(p, kv)) == Total(f, p) + f(kv)
  {
    if p != [] && Less(kv.0, p[|p| - 1].0) {
      EmplaceTotal(f, p[..|p| - 1], kv);
      TotalSnoc(f, Emplace(p[..|p| - 1], kv), p[|p| - 1]);
    } else {
      TotalSnoc(f, p, kv);
    }
  }

  function TotalFrom(f: Pair -> nat, kvs: seq<Pair>): nat {
    if kvs == [] then 0 else f(kvs[0]) + TotalFrom(f, kvs[1..])
  }

  lemma {:induction false} EmplaceAllTotal(f: Pair -> nat, p: seq<Pair>, kvs: seq<Pair>)
    ensures Total(f, EmplaceAll(p, kvs)) == Total(f, p) + TotalFrom(f, kvs)
    decreases |kvs|
  {
    if kvs != [] {
      EmplaceTotal(f, p, kvs[0]);
      EmplaceAllTotal(f, Emplace(p, kvs[0]), kvs[1..]);
    }
  }

  function TextTotal(f: Pair -> nat, t: string): nat {
    if KeyValue(t).0 == "" then 0 else f(DecodePair(KeyValue(t)))
  }

  function TextsTotal(f: Pair -> nat, texts: seq<string>): nat {
    if texts == [] then 0 else TextTotal(f, texts[0]) + TextsTotal(f, texts[1..])
  }

  lemma {:induction false} TextsTotalAppend(f: Pair -> nat, a: seq<string>, b: seq<string>)
    ensures TextsTotal(f, a + b) == TextsTotal(f, a) + TextsTotal(f, b)
  {
    if a == [] {
      assert a + b == b;
    } else {
      assert (a + b)[1..] == a[1..] + b;
      TextsTotalAppend(f, a[1..], b);
    }
  }

  lemma {:induction false} TextsTotalOne(f: Pair -> nat, t: string)
    ensures TextsTotal(f, [t]) == TextTotal(f, t)
  {
    assert [t][1..] == [];
  }

  lemma {:induction false} DecodedTotal(f: Pair -> nat, texts: seq<string>, kvs: seq<Pair>)
    requires kvs == KeyValues(texts)
    ensures TotalFrom(f, DecodePairs(kvs)) == TextsTotal(f, texts)
    decreases |texts|
  {
    if texts != [] {
      var (t, rest) := (texts[0], KeyValues(texts[1..]));
      DecodedTotal(f, texts[1..], rest);
      if KeyValue(t).0 == "" {
        assert kvs == rest;
      } else {
        assert kvs == [KeyValue(t)] + rest;
        DecodePairsCons(KeyValue(t), rest);
        assert DecodePairs(kvs)[1..] == DecodePairs(rest);
      }
    }
  }

  /** Removing repeated texts adds nothing. */
  lemma {:induction false} DedupTotal(f: Pair -> nat, texts: seq<string>)
    ensures TextsTotal(f, Dedup(texts)) <= TextsTotal(f, texts)
  {
    if texts != [] {
      var (front, last) := (texts[..|texts| - 1], texts[|texts| - 1]);
      DedupTotal(f, front);
      assert texts == front + [last];
      TextsTotalAppend(f, front, [last]);
      TextsTotalAppend(f, Dedup(front), [last]);
    }
  }

  // ------------------------------------------------------ texts of the query

  /** All pieces of the texts, in order. */
  function Pieces(texts: seq<string>): seq<string> {
    if texts == [] then [] else Split(texts[0], '&') + Pieces(texts[1..])
  }

  lemma {:induction false} SplitOfTexts(texts: seq<string>)
    ensures Split(Join(texts, '&'), '&') == Pieces(texts)
  {
    if texts == [] {
      SegmentsOfOne("", '&');
      CleanOne("");
    } else if |texts| == 1 {
      assert texts[1..] == [] && Split(texts[0], '&') + [] == Split(texts[0], '&');
    } else {
      SplitOfTexts(texts[1..]);
      SplitOfJoined(texts[0], '&', Join(texts[1..], '&'));
    }
  }

  /** What the text of one pair reports. */
  function PairTotal(f: Pair -> nat, kv: Pair): nat
    requires IsBytes(kv.1)
  {
    TextsTotal(f, Split(PairText(kv), '&'))
  }

  function PairsTotal(f: Pair -> nat, p: seq<Pair>): nat
    requires ValuesAreBytes(p)
  {
    if p == [] then 0 else PairTotal(f, p[0]) + PairsTotal(f, p[1..])
  }

  lemma {:induction false} PiecesTotal(f: Pair -> nat, p: seq<Pair>, texts: seq<string>)
    requires ValuesAreBytes(p) && texts == Texts(p)
    ensures TextsTotal(f, Pieces(texts)) == PairsTotal(f, p)
    decreases |p|
  {
    if p != [] {
      assert texts[1..] == Texts(p[1..]);
      PiecesTotal(f, p[1..], texts[1..]);
      TextsTotalAppend(f, Split(texts[0], '&'), Pieces(texts[1..]));
    }
  }

  /** The parsed map has no more in total than the texts of the pairs report one by one. */
  lemma {:induction false} ParsedTotal(f: Pair -> nat, p: seq<Pair>)
    requires ValuesAreBytes(p)
    ensures Total(f, ParseQuery([], QueryOf(p))) <= PairsTotal(f, p)
  {
    var pieces := Pieces(Texts(p));
    SplitOfTexts(Texts(p));
    PiecesTotal(f, p, Texts(p));
    DedupTotal(f, pieces);
    DecodedTotal(f, Dedup(pieces), KeyValues(Dedup(pieces)));
    EmplaceAllTotal(f, [], DecodePairs(KeyValues(Dedup(pieces))));
  }

  /** A bound on every pair, met by all in total, is met by each. */
  lemma {:induction false} EachMeets(f: Pair -> nat, p: seq<Pair>)
    requires ValuesAreBytes(p) && TotalFrom(f, p) <= PairsTotal(f, p)
    requires forall i :: 0 <= i < |p| ==> PairTotal(f, p[i]) <= f(p[i])
    ensures forall i :: 0 <= i < |p| ==> PairTotal(f, p[i]) == f(p[i])
  {
    BoundSums(f, p);
    if p != [] {
      BoundSums(f, p[1..]);
      EachMeets(f, p[1..]);
      forall i | 0 <= i < |p| ensures PairTotal(f, p[i]) == f(p[i]) {
        assert i > 0 ==> p[i] == p[1..][i - 1];
      }
    }
  }

  lemma {:induction false} BoundSums(f: Pair -> nat, p: seq<Pair>)
    requires ValuesAreBytes(p) && forall i :: 0 <= i < |p| ==> PairTotal(f, p[i]) <= f(p[i])
    ensures PairsTotal(f, p) <= TotalFrom(f, p)
  {
    if p != [] { BoundSums(f, p[1..]); }
  }

  lemma {:induction false} TotalIsTotalFrom(f: Pair -> nat, p: seq<Pair>)
    ensures Total(f, p) == TotalFrom(f, p)
  {
    if p != [] {
      TotalIsTotalFrom(f, p[..|p| - 1]);
      TotalFromSnoc(f, p[..|p| - 1], p[|p| - 1]);
      assert p == p[..|p| - 1] + [p[|p| - 1]];
    }
  }

  lemma {:induction false} TotalFromSnoc(f: Pair -> nat, p: seq<Pair>, kv: Pair)
    ensures TotalFrom(f, p + [kv]) == TotalFrom(f, p) + f(kv)
  {
    if p == [] {
      assert [] + [kv] == [kv] && [kv][1..] == [];
    } else {
      assert (p + [kv])[1..] == p[1..] + [kv];
      TotalFromSnoc(f, p[1..], kv);
    }
  }

  // ---------------------------------------------------------- lengths of pieces

  function Lengths(texts: seq<string>): nat {
    if texts == [] then 0 else |texts[0]| + Lengths(texts[1..])
  }

  lemma {:induction false} LengthsAppend(a: seq<string>, b: seq<string>)
    ensures Lengths(a + b) == Lengths(a) + Lengths(b)
  {
    if a == [] {
      assert a + b == b;
    } else {
      assert (a + b)[1..] == a[1..] + b;
      LengthsAppend(a[1..], b);
    }
  }

  lemma {:induction false} LengthAt(texts: seq<string>, i: nat, j: nat)
    requires i < j < |texts|
    ensures |texts[i]| + |texts[j]| <= Lengths(texts)
  {
    if i > 0 { LengthAt(texts[1..], i - 1, j - 1); } else { OneLength(texts[1..], j - 1); }
  }

  lemma {:induction false} OneLength(texts: seq<string>, i: nat)
    requires i < |texts|
    ensures |texts[i]| <= Lengths(texts)
  {
    if i > 0 { OneLength(texts[1..], i - 1); }
  }

  /** The pieces of a text are together no longer than the text, and as long only when it is one piece. */
  lemma {:induction false} SplitLengths(s: string, d: char)
    ensures Lengths(Split(s, d)) <= |s|
    ensures d in s ==> Lengths(Split(s, d)) < |s|
    ensures Lengths(Split(s, d)) == |s| ==> Trimmed(s)
    decreases |s|
  {
    if d in s {
      var i := Find(s, [d]);
      NoneFound(s, d);
      FoundAt(s, d, i);
      AroundAt(s, 0, i);
      assert s[0..] == s && s[0..i] == s[..i];
      SplitOfJoined(s[..i], d, s[i + 1..]);
      LengthsAppend(Split(s[..i], d), Split(s[i + 1..], d));
      SplitLengths(s[..i], d);
      SplitLengths(s[i + 1..], d);
    } else {
      SegmentsOfOne(s, d);
      CleanOne(s);
      TrimOfTrimmed(s);
      assert Lengths([Trim(s)]) == |Trim(s)| by { assert [Trim(s)][1..] == []; }
      TrimKeepsLength(s);
    }
  }

  lemma {:induction false} TrimKeepsLength(s: string)
    ensures |Trim(s)| == |s| ==> Trim(s) == s
  {
    var i, j := TrimIsSlice(s);
  }

  // --------------------------------------------------------- what a pair loses

  function Weight(kv: Pair): nat { |kv.0| + |kv.1| }

  function EmptyKey(kv: Pair): nat { if kv.0 == "" then 1 else 0 }

  function PlusKey(kv: Pair): nat { if '+' in kv.0 then 1 else 0 }

  /** Decoding that keeps the length only turns '+' into blanks. */
  lemma {:induction false} DecodeOfSameLength(s: string)
    requires |Decode(s, true)| == |s|
    ensures '+' !in Decode(s, true)
    ensures '+' !in s ==> Decode(s, true) == s
    decreases |s|
  {
    if s != "" {
      var (out, used) := DecodeStep(s, true);
      DecodeNotLonger(s[used..], true);
      if s[0] == '%' && |s| > 1 && s[1] == 'u' && HexValue(s, 2, 4).Some? { HexIsBelow16Bits(s); }
      assert used == 1 && |out| == 1;
      DecodeOfSameLength(s[1..]);
      assert s == [s[0]] + s[1..];
    }
  }

  /** A piece of the query reports no more than its length. */
  lemma {:induction false} PieceWeight(t: string)
    ensures TextTotal(Weight, t) <= |t|
  {
    var pieces := Split(t, '=');
    SplitLengths(t, '=');
    if pieces != [] {
      var n := |pieces| - 1;
      DecodeNotLonger(pieces[0], true);
      DecodeNotLonger(pieces[n], true);
      if n > 0 { LengthAt(pieces, 0, n); } else { OneLength(pieces, 0); }
    }
  }

  lemma {:induction false} CleanedWeight(a: string)
    ensures TextsTotal(Weight, Clean([a])) <= |a|
  {
    CleanOne(a);
    TextsTotalOne(Weight, Trim(a));
    PieceWeight(Trim(a));
  }

  lemma {:induction false} TextWithoutAmpersand(key: string, e: string)
    requires '&' !in key && '&' !in e
    ensures Split(key + "=" + e, '&') == [Trim(key + "=" + e)]
  {
    var t := key + "=" + e;
    assert '&' !in t;
    SegmentsOfOne(t, '&');
    CleanOne(t);
    var i, j := TrimIsSlice(t);
    assert t[|key|] == '=' && !IsBlank(t[|key|]);
  }

  lemma {:induction false} EncodedIsPlain(v: string)
    requires IsBytes(v)
    ensures var e := Encode(v); '&' !in e && '=' !in e && Trimmed(e) && (e == "" <==> v == "")
    ensures Decode(Encode(v), true) == v
  {
    EncodeAlphabet(v);
    DecodeOfEncode(v, true);
    AlphabetIsPlain(Encode(v));
  }

  lemma {:induction false} AlphabetIsPlain(e: string)
    requires forall i :: 0 <= i < |e| ==> SelfEncoding(e[i]) || e[i] == '%'
    ensures '&' !in e && '=' !in e && Trimmed(e)
  {}

  /** The pair that is reported for a key without '&'. */
  lemma {:induction false} TotalOfPair(f: Pair -> nat, kv: Pair, r: Pair)
    requires IsBytes(kv.1) && '&' !in kv.0 && r == PairOfPieces(Split(kv.0, '='), Encode(kv.1))
    ensures PairTotal(f, kv) == if r.0 == "" then 0 else f(DecodePair(r))
  {
    EncodedIsPlain(kv.1);
    TextWithoutAmpersand(kv.0, Encode(kv.1));
    TextsTotalOne(f, Trim(PairText(kv)));
    KeyValueOfText(kv.0, Encode(kv.1));
  }

  /** A key that survives but for '+', or no key at all. */
  predicate Keeps(key: string) {
    key == "" ||
    (Trimmed(key) && '&' !in key && '=' !in key && |Decode(key, true)| == |key|)
  }

  lemma {:induction false} WholeKey(key: string)
    requires Lengths(Split(key, '=')) == |key| && key != ""
    ensures Trimmed(key) && '=' !in key && Split(key, '=') == [key]
  {
    SplitLengths(key, '=');
    SegmentsOfOne(key, '=');
    CleanOne(key);
  }

  /** Without '&' the reported pair is no longer than the written one, and as long only for a key that keeps. */
  lemma {:induction false} PlainWeight(key: string, v: string, e: string, pieces: seq<string>)
    requires '&' !in key && pieces == Split(key, '=') && Decode(e, true) == v && (e == "" <==> v == "")
    ensures var r := PairOfPieces(pieces, e);
            var w := if r.0 == "" then 0 else Weight(DecodePair(r));
            w <= |key| + |v| && (w == |key| + |v| ==> Keeps(key))
  {
    SplitLengths(key, '=');
    if pieces != [] {
      var n := |pieces| - 1;
      DecodeNotLonger(pieces[0], true);
      DecodeNotLonger(pieces[n], true);
      if n > 0 { LengthAt(pieces, 0, n); } else { OneLength(pieces, 0); }
      OneLength(pieces, 0);
      if Lengths(pieces) == |key| { WholeKey(key); }
    }
  }

  lemma {:induction false} PlainPairWeight(kv: Pair)
    requires IsBytes(kv.1) && '&' !in kv.0
    ensures PairTotal(Weight, kv) <= Weight(kv)
    ensures PairTotal(Weight, kv) == Weight(kv) ==> Keeps(kv.0)
  {
    var (key, e) := (kv.0, Encode(kv.1));
    EncodedIsPlain(kv.1);
    TotalOfPair(Weight, kv, PairOfPieces(Split(key, '='), e));
    PlainWeight(key, kv.1, e, Split(key, '='));
  }

  lemma {:induction false} FirstAmpersand(key: string) returns (a: string, b: string)
    requires '&' in key
    ensures key == a + ['&'] + b && '&' !in a
  {
    var i := Find(key, ['&']);
    NoneFound(key, '&');
    BeforeFirst(key, '&');
    FoundAt(key, '&', i);
    AroundAt(key, 0, i);
    assert key[0..] == key && key[0..i] == key[..i];
    a, b := key[..i], key[i + 1..];
  }

  /** What stands before an '&' loses it. */
  lemma {:induction false} AmpersandLoses(a: string, text: string, rest: nat)
    requires '&' !in a && rest == TextsTotal(Weight, Split(text, '&'))
    ensures TextsTotal(Weight, Split(a + ['&'] + text, '&')) <= |a| + rest
  {
    SplitCons(a, '&', text);
    TextsTotalAppend(Weight, Clean([a]), Split(text, '&'));
    CleanedWeight(a);
  }

  lemma {:induction false} TextBehind(a: string, b: string, e: string)
    ensures (a + ['&'] + b) + "=" + e == a + ['&'] + (b + "=" + e)
  {}

  lemma {:induction false} AmpersandWeight(kv: Pair)
    requires IsBytes(kv.1) && '&' in kv.0
    ensures PairTotal(Weight, kv) < Weight(kv)
    decreases |kv.0|
  {
    var a, b := FirstAmpersand(kv.0);
    var rest := (b, kv.1);
    TextBehind(a, b, Encode(kv.1));
    AmpersandLoses(a, PairText(rest), PairTotal(Weight, rest));
    if '&' in b { AmpersandWeight(rest); } else { PlainPairWeight(rest); }
  }

  /** The text of a pair reports no more than the pair is long, and as much only for a key that keeps. */
  lemma {:induction false} PairWeight(kv: Pair)
    requires IsBytes(kv.1)
    ensures PairTotal(Weight, kv) <= Weight(kv)
    ensures PairTotal(Weight, kv) == Weight(kv) ==> Keeps(kv.0)
  {
    if '&' in kv.0 { AmpersandWeight(kv); } else { PlainPairWeight(kv); }
  }

  lemma {:induction false} KeepsReports(kv: Pair)
    requires IsBytes(kv.1) && Keeps(kv.0)
    ensures PairTotal(EmptyKey, kv) == 0
    ensures kv.0 != "" ==> PairTotal(PlusKey, kv) == 0
  {
    var (key, e) := (kv.0, Encode(kv.1));
    EncodedIsPlain(kv.1);
    SegmentsOfOne(key, '=');
    CleanOne(key);
    var r := PairOfPieces(Split(key, '='), e);
    TotalOfPair(EmptyKey, kv, r);
    TotalOfPair(PlusKey, kv, r);
    if key != "" { DecodeOfSameLength(key); }
  }

  // ------------------------------------------------------------- the theorem

  lemma {:induction false} TotalZero(f: Pair -> nat, p: seq<Pair>)
    requires Total(f, p) == 0
    ensures forall i :: 0 <= i < |p| ==> f(p[i]) == 0
  {
    if p != [] { TotalZero(f, p[..|p| - 1]); }
  }

  lemma {:induction false} NothingReported(f: Pair -> nat, p: seq<Pair>)
    requires ValuesAreBytes(p) && forall i :: 0 <= i < |p| ==> PairTotal(f, p[i]) == 0
    ensures PairsTotal(f, p) == 0
  {
    if p != [] { NothingReported(f, p[1..]); }
  }

  /** What is not reported at all is not in a map that comes back. */
  lemma {:induction false} NotThere(f: Pair -> nat, p: seq<Pair>)
    requires ValuesAreBytes(p) && ParseQuery([], QueryOf(p)) == p
    requires forall i :: 0 <= i < |p| ==> PairTotal(f, p[i]) == 0
    ensures forall i :: 0 <= i < |p| ==> f(p[i]) == 0
  {
    ParsedTotal(f, p);
    NothingReported(f, p);
    TotalZero(f, p);
  }

  lemma {:induction false} ReturnedKeeps(p: seq<Pair>)
    requires ValuesAreBytes(p) && ParseQuery([], QueryOf(p)) == p
    ensures forall i :: 0 <= i < |p| ==> Keeps(p[i].0)
  {
    ParsedTotal(Weight, p);
    TotalIsTotalFrom(Weight, p);
    forall i | 0 <= i < |p| ensures PairTotal(Weight, p[i]) <= Weight(p[i]) { PairWeight(p[i]); }
    EachMeets(Weight, p);
    forall i | 0 <= i < |p| ensures Keeps(p[i].0) { PairWeight(p[i]); }
  }

  lemma {:induction false} ReturnedIsRaw(p: seq<Pair>)
    requires ValuesAreBytes(p) && ParseQuery([], QueryOf(p)) == p
    ensures forall i :: 0 <= i < |p| ==> RawKey(p[i].0)
  {
    ReturnedKeeps(p);
    forall i | 0 <= i < |p| ensures PairTotal(EmptyKey, p[i]) == 0 { KeepsReports(p[i]); }
    NotThere(EmptyKey, p);
    forall i | 0 <= i < |p| ensures PairTotal(PlusKey, p[i]) == 0 {
      assert EmptyKey(p[i]) == 0;
      KeepsReports(p[i]);
    }
    NotThere(PlusKey, p);
    forall i | 0 <= i < |p| ensures RawKey(p[i].0) {
      assert EmptyKey(p[i]) == 0 && PlusKey(p[i]) == 0;
      DecodeOfSameLength(p[i].0);
    }
  }

  /** Which multimaps the query carries exactly: those without repeated pairs whose keys are all raw. */
  lemma {:induction false} QueryRoundTripExactly(p: seq<Pair>)
    requires ValuesAreBytes(p) && IsMultimap(p)
    ensures ParseQuery([], QueryOf(p)) == p <==> Distinct(p) && forall i :: 0 <= i < |p| ==> RawKey(p[i].0)
  {
    if ParseQuery([], QueryOf(p)) == p { ReturnedIsRaw(p); }
    if Writable(p) { QueryRoundTrip(p); }
  }
}
