/** Query strings of httplib.h: `params_to_query_str` and `parse_query_text` over the `Params` multimap. */
module QueryString {
  import opened Bytes
  import opened TextCodec

  type Pair = (string, string)

  // ------------------------------------------------------- the Params multimap

  /** The order of std::string: character by character, a proper prefix first. */
  predicate Less(a: string, b: string) {
    b != "" && (a == "" || a[0] < b[0] || (a[0] == b[0] && Less(a[1..], b[1..])))
  }

  lemma {:induction false} LessIsIrreflexive(a: string)
    ensures !Less(a, a)
  {
    if a != "" { LessIsIrreflexive(a[1..]); }
  }

  lemma {:induction false} LessIsTransitive(a: string, b: string, c: string)
    requires Less(a, b) && Less(b, c)
    ensures Less(a, c)
  {
    if a != "" && a[0] == b[0] && b[0] == c[0] {
      LessIsTransitive(a[1..], b[1..], c[1..]);
    }
  }

  lemma {:induction false} LessIsTotal(a: string, b: string)
    ensures Less(a, b) || a == b || Less(b, a)
  {
    if a != "" && b != "" && a[0] == b[0] {
      LessIsTotal(a[1..], b[1..]);
      assert a == [a[0]] + a[1..] && b == [b[0]] + b[1..];
    }
  }

  /** The entries in iteration order: keys ascend, equal keys keep their order of insertion. */
  predicate IsMultimap(p: seq<Pair>) {
    forall i, j :: 0 <= i < j < |p| ==> !Less(p[j].0, p[i].0)
  }

  /** `emplace`: behind every entry whose key is not greater. */
  function Emplace(p: seq<Pair>, kv: Pair): seq<Pair> {
    if p == [] then [kv]
    else if Less(kv.0, p[|p| - 1].0) then Emplace(p[..|p| - 1], kv) + [p[|p| - 1]]
    else p + [kv]
  }

  function EmplaceAll(p: seq<Pair>, kvs: seq<Pair>): seq<Pair>
    decreases |kvs|
  {
    if kvs == [] then p else EmplaceAll(Emplace(p, kvs[0]), kvs[1..])
  }

  lemma {:induction false} OrderSnoc(p: seq<Pair>, last: Pair)
    requires IsMultimap(p) && forall k :: 0 <= k < |p| ==> !Less(last.0, p[k].0)
    ensures IsMultimap(p + [last])
  {}

  lemma {:induction false} EmplaceKeepsOrder(p: seq<Pair>, kv: Pair)
    requires IsMultimap(p)
    ensures IsMultimap(Emplace(p, kv))
    ensures multiset(Emplace(p, kv)) == multiset(p) + multiset{kv}
  {
    if p != [] {
      var before, last := p[..|p| - 1], p[|p| - 1];
      assert p == before + [last];
      if Less(kv.0, last.0) {
        EmplaceKeepsOrder(before, kv);
        NotBothLess(kv.0, last.0);
        var front := Emplace(before, kv);
        forall k | 0 <= k < |front| ensures !Less(last.0, front[k].0) {
          assert front[k] in multiset(front);
          assert front[k] == kv || front[k] in before;
        }
        OrderSnoc(front, last);
      } else {
        LessIsIrreflexive(last.0);
        forall k | 0 <= k < |p| ensures !Less(kv.0, p[k].0) {
          NotLessChain(p[k].0, last.0, kv.0);
        }
        OrderSnoc(p, kv);
      }
    }
  }

  lemma {:induction false} NotBothLess(a: string, b: string)
    requires Less(a, b)
    ensures !Less(b, a)
  {
    LessIsIrreflexive(a);
    if Less(b, a) { LessIsTransitive(a, b, a); }
  }

  lemma {:induction false} NotLessChain(a: string, b: string, c: string)
    requires !Less(b, a) && !Less(c, b)
    ensures !Less(c, a)
  {
    LessIsTotal(b, c);
    if Less(c, a) && Less(b, c) { LessIsTransitive(b, c, a); }
  }

  /** Inserting entries in iteration order rebuilds the multimap. */
  lemma {:induction false} EmplaceInOrder(p: seq<Pair>, kvs: seq<Pair>)
    requires IsMultimap(p + kvs)
    ensures EmplaceAll(p, kvs) == p + kvs
    decreases |kvs|
  {
    if kvs == [] {
      assert p + kvs == p;
    } else {
      assert (p + kvs)[|p|] == kvs[0];
      if p != [] { assert (p + kvs)[|p| - 1] == p[|p| - 1]; }
      assert Emplace(p, kvs[0]) == p + [kvs[0]];
      assert (p + [kvs[0]]) + kvs[1..] == p + kvs;
      EmplaceInOrder(p + [kvs[0]], kvs[1..]);
    }
  }

  // -------------------------------------------------------------- printing

  function PairText(kv: Pair): string
    requires IsBytes(kv.1)
  {
    kv.0 + "=" + Encode(kv.1)
  }

  predicate ValuesAreBytes(p: seq<Pair>) {
    forall i :: 0 <= i < |p| ==> IsBytes(p[i].1)
  }

  function Texts(p: seq<Pair>): (r: seq<string>)
    requires ValuesAreBytes(p)
  {
    seq(|p|, i requires 0 <= i < |p| => PairText(p[i]))
  }

  function QueryOf(p: seq<Pair>): string
    requires ValuesAreBytes(p)
  {
    Join(Texts(p), '&')
  }

  lemma {:induction false} JoinSnoc(pieces: seq<string>, t: string, d: char)
    ensures Join(pieces + [t], d) == if pieces == [] then t else Join(pieces, d) + [d] + t
  {
    if |pieces| > 1 {
      assert (pieces + [t])[1..] == pieces[1..] + [t];
      JoinSnoc(pieces[1..], t, d);
    }
  }

  /** The query of the first `n` pairs. */
  function QueryUpTo(p: seq<Pair>, n: nat): string
    requires ValuesAreBytes(p) && n <= |p|
  {
    Join(Texts(p)[..n], '&')
  }

  lemma {:induction false} JoinUpTo(texts: seq<string>, n: nat, done: string)
    requires n < |texts| && done == Join(texts[..n], '&')
    ensures Join(texts[..n + 1], '&') == (if n == 0 then "" else done + "&") + texts[n]
  {
    var (front, last) := (texts[..n], texts[n]);
    assert texts[..n + 1] == front + [last];
    JoinSnoc(front, last, '&');
    assert "" + last == last;
  }

  lemma {:induction false} AppendPair(before: string, kv: Pair, value: string)
    requires IsBytes(kv.1) && value == Encode(kv.1)
    ensures before + PairText(kv) == before + kv.0 + "=" + value
  {}

  lemma {:induction false} NextText(p: seq<Pair>, n: nat, done: string, value: string)
    requires ValuesAreBytes(p) && n < |p| && done == QueryUpTo(p, n) && value == Encode(p[n].1)
    ensures QueryUpTo(p, n + 1) == (if n == 0 then "" else done + "&") + p[n].0 + "=" + value
  {
    JoinUpTo(Texts(p), n, done);
    AppendPair(if n == 0 then "" else done + "&", p[n], value);
  }

  /** `params_to_query_str`. Keys are written as they are; only values are encoded. */
  method ParamsToQueryStr(p: seq<Pair>) returns (query: string)
    requires ValuesAreBytes(p)
    ensures query == QueryOf(p)
  {
    query := "";
    for i := 0 to |p|
      invariant query == QueryUpTo(p, i)
    {
      ghost var done := query;
      if i > 0 { query := query + "&"; }
      query := query + p[i].0;
      query := query + "=";
      var value := EncodeQueryParam(p[i].1);
      query := query + value;
      NextText(p, i, done, value);
    }
    assert Texts(p)[..|p|] == Texts(p);
  }

  // --------------------------------------------------------------- parsing

  function DecodePair(kv: Pair): Pair {
    (Decode(kv.0, true), Decode(kv.1, true))
  }

  function DecodePairs(kvs: seq<Pair>): (r: seq<Pair>) {
    seq(|kvs|, i requires 0 <= i < |kvs| => DecodePair(kvs[i]))
  }

  function ParseQuery(p: seq<Pair>, s: string): seq<Pair> {
    EmplaceAll(p, DecodePairs(ParsedPairs(s, '&')))
  }

  /** `parse_query_text`, adding to the multimap `p`. */
  method ParseQueryText(s: string, p: seq<Pair>) returns (params: seq<Pair>)
    ensures params == ParseQuery(p, s)
  {
    var kvs := ParsePairsLoop(s, '&');
    params := p;
    ghost var all := DecodePairs(kvs);
    for i := 0 to |kvs|
      invariant EmplaceAll(params, all[i..]) == EmplaceAll(p, all)
    {
      var key := DecodeUrl(kvs[i].0, true);
      var val := DecodeUrl(kvs[i].1, true);
      assert all[i..][0] == (key, val) && all[i..][1..] == all[i + 1..];
      params := Emplace(params, (key, val));
    }
  }

  // ------------------------------------------------------------ round trip

  /** A key that survives being written raw: see `QueryExact.QueryRoundTripExactly`. */
  predicate RawKey(key: string) {
    key != "" && Trimmed(key) && '&' !in key && '=' !in key && Decode(key, true) == key
  }

  predicate Writable(p: seq<Pair>) {
    ValuesAreBytes(p) && forall i :: 0 <= i < |p| ==> RawKey(p[i].0)
  }

  lemma {:induction false} PairTextIsPlain(kv: Pair)
    requires RawKey(kv.0) && IsBytes(kv.1)
    ensures '&' !in PairText(kv) && PairText(kv) != "" && Trimmed(PairText(kv))
  {
    EncodeAlphabet(kv.1);
    var (t, e) := (PairText(kv), Encode(kv.1));
    assert t[0] == kv.0[0];
    assert t[|t| - 1] == if e == "" then '=' else e[|e| - 1];
  }

  lemma {:induction false} KeyValueOfPair(kv: Pair)
    requires RawKey(kv.0) && IsBytes(kv.1)
    ensures KeyValue(PairText(kv)) == (kv.0, Encode(kv.1))
  {
    EncodeAlphabet(kv.1);
    KeyValueReads(kv.0, Encode(kv.1));
    assert PairText(kv) == kv.0 + ['='] + Encode(kv.1);
  }

  lemma {:induction false} KeyValueReads(key: string, val: string)
    requires '=' !in key && key != "" && Trimmed(key) && '=' !in val && Trimmed(val)
    ensures KeyValue(key + ['='] + val) == (key, val)
  {
    SegmentsOfCons(key, '=', val);
    SegmentsOfOne(val, '=');
    if val == "" { KeyOnly(key); } else { CleanTwo(key, val); }
  }

  lemma {:induction false} KeyOnly(key: string)
    requires Trimmed(key) && key != ""
    ensures Clean([key] + [""]) == [key]
  {
    assert ([key] + [""])[1..] == [""];
    CleanOne("");
  }

  lemma {:induction false} DecodeOfPair(kv: Pair)
    requires RawKey(kv.0) && IsBytes(kv.1)
    ensures DecodePair(KeyValue(PairText(kv))) == kv
  {
    KeyValueOfPair(kv);
    DecodeOfEncode(kv.1, true);
  }

  lemma {:induction false} PairTextIsInjective(a: Pair, b: Pair)
    requires RawKey(a.0) && IsBytes(a.1) && RawKey(b.0) && IsBytes(b.1)
    ensures PairText(a) == PairText(b) ==> a == b
  {
    DecodeOfPair(a);
    DecodeOfPair(b);
  }

  lemma {:induction false} TextsSnoc(p: seq<Pair>, kv: Pair)
    requires ValuesAreBytes(p) && IsBytes(kv.1)
    ensures ValuesAreBytes(p + [kv]) && Texts(p + [kv]) == Texts(p) + [PairText(kv)]
  {}

  lemma {:induction false} TextRepeats(p: seq<Pair>, kv: Pair)
    requires Writable(p) && RawKey(kv.0) && IsBytes(kv.1)
    ensures PairText(kv) in Texts(p) <==> kv in p
  {
    forall k | 0 <= k < |p| ensures Texts(p)[k] == PairText(kv) <==> p[k] == kv {
      PairTextIsInjective(p[k], kv);
    }
  }

  /** Removing repeated texts is removing repeated pairs. */
  lemma {:induction false} DedupTexts(p: seq<Pair>)
    requires Writable(p)
    ensures Writable(Dedup(p)) && Dedup(Texts(p)) == Texts(Dedup(p))
  {
    if p != [] {
      var front, last := p[..|p| - 1], p[|p| - 1];
      DedupTexts(front);
      assert p == front + [last];
      TextsSnoc(front, last);
      TextsSnoc(Dedup(front), last);
      DedupSnoc(front, last);
      DedupSnoc(Texts(front), PairText(last));
      TextRepeats(front, last);
    }
  }

  lemma {:induction false} DecodeTexts(p: seq<Pair>, texts: seq<string>)
    requires Writable(p) && texts == Texts(p)
    ensures DecodePairs(KeyValues(texts)) == p
  {
    if p != [] {
      assert texts[1..] == Texts(p[1..]);
      DecodeTexts(p[1..], texts[1..]);
      DecodeTextsCons(p[0], texts[0], texts[1..], KeyValues(texts[1..]));
      assert p == [p[0]] + p[1..] && texts == [texts[0]] + texts[1..];
    }
  }

  lemma {:induction false} DecodeTextsCons(kv: Pair, text: string, more: seq<string>, kvs: seq<Pair>)
    requires RawKey(kv.0) && IsBytes(kv.1) && text == PairText(kv) && kvs == KeyValues(more)
    ensures DecodePairs(KeyValues([text] + more)) == [kv] + DecodePairs(kvs)
  {
    KeyValueOfPair(kv);
    DecodeOfPair(kv);
    KeyValuesCons(text, more);
    DecodePairsCons(KeyValue(text), kvs);
  }

  lemma {:induction false} KeyValuesCons(t: string, texts: seq<string>)
    requires KeyValue(t).0 != ""
    ensures KeyValues([t] + texts) == [KeyValue(t)] + KeyValues(texts)
  {
    assert ([t] + texts)[1..] == texts;
  }

  lemma {:induction false} DecodePairsCons(kv: Pair, kvs: seq<Pair>)
    ensures DecodePairs([kv] + kvs) == [DecodePair(kv)] + DecodePairs(kvs)
  {}

  /** Parsing the query of a multimap with writable keys gives the multimap without repeated pairs. */
  lemma {:induction false} ParseOfQuery(p: seq<Pair>)
    requires Writable(p) && IsMultimap(p)
    ensures ParseQuery([], QueryOf(p)) == Dedup(p)
  {
    var texts := Texts(p);
    forall k | 0 <= k < |texts| ensures '&' !in texts[k] && texts[k] != "" && Trimmed(texts[k]) {
      PairTextIsPlain(p[k]);
    }
    SplitOfJoin(texts, '&');
    DedupTexts(p);
    DecodeTexts(Dedup(p), Texts(Dedup(p)));
    DedupIsMultimap(p);
    EmplaceInOrder([], Dedup(p));
    assert [] + Dedup(p) == Dedup(p);
  }

  lemma {:induction false} DedupIsMultimap(p: seq<Pair>)
    requires IsMultimap(p)
    ensures IsMultimap(Dedup(p))
  {
    if p != [] {
      var front, last := p[..|p| - 1], p[|p| - 1];
      DedupIsMultimap(front);
      DedupKeepsDistinct(front);
      forall k | 0 <= k < |Dedup(front)| ensures !Less(last.0, Dedup(front)[k].0) {
        assert Dedup(front)[k] in front;
      }
    }
  }

  /** The query carries the multimap exactly when no (key, value) pair is repeated. */
  lemma {:induction false} QueryRoundTrip(p: seq<Pair>)
    requires Writable(p) && IsMultimap(p)
    ensures ParseQuery([], QueryOf(p)) == p <==> Distinct(p)
  {
    ParseOfQuery(p);
    DedupKeepsDistinct(p);
  }
}
