/** `canonical` decides equality of JSON values up to member order.

    Sorting gives every value a normal form; `canonical` prints the normal form; and the printed text is
    uniquely readable, as the reader below shows by reading it back at every nesting depth. */
module JsonCanonical {
  import opened Wrappers
  import opened Bytes
  import opened JsonText

  // ------------------------------------------------------------- order of keys

  lemma {:induction false} KeyLessIsIrreflexive(a: Text)
    ensures !KeyLess(a, a)
  {
    if a != [] { KeyLessIsIrreflexive(a[1..]); }
  }

  lemma {:induction false} KeyLessIsTransitive(a: Text, b: Text, c: Text)
    requires KeyLess(a, b) && KeyLess(b, c)
    ensures KeyLess(a, c)
  {
    if a != [] && a[0] == b[0] && b[0] == c[0] {
      KeyLessIsTransitive(a[1..], b[1..], c[1..]);
    }
  }

  lemma {:induction false} KeyLessIsTotal(a: Text, b: Text)
    ensures KeyLess(a, b) || a == b || KeyLess(b, a)
  {
    if a != [] && b != [] && a[0] == b[0] {
      KeyLessIsTotal(a[1..], b[1..]);
      assert a == [a[0]] + a[1..] && b == [b[0]] + b[1..];
    }
  }

  // ------------------------------------------------------------------- sorting

  predicate StrictlySorted<T>(entries: seq<Entry<T>>) {
    forall i, j :: 0 <= i < j < |entries| ==> KeyLess(entries[i].key, entries[j].key)
  }

  lemma {:induction false} InsertIsPermutation<T>(e: Entry<T>, sorted: seq<Entry<T>>)
    ensures multiset(Insert(e, sorted)) == multiset(sorted) + multiset{e}
    ensures |Insert(e, sorted)| == |sorted| + 1
  {
    if sorted != [] && !KeyLess(e.key, sorted[0].key) {
      InsertIsPermutation(e, sorted[1..]);
      assert sorted == [sorted[0]] + sorted[1..];
    }
  }

  lemma {:induction false} SortIsPermutation<T>(entries: seq<Entry<T>>)
    ensures multiset(Sort(entries)) == multiset(entries)
    ensures |Sort(entries)| == |entries|
  {
    if entries != [] {
      SortIsPermutation(entries[1..]);
      InsertIsPermutation(entries[0], Sort(entries[1..]));
      assert entries == [entries[0]] + entries[1..];
    }
  }

  lemma {:induction false} SortedCons<T>(e: Entry<T>, rest: seq<Entry<T>>)
    requires StrictlySorted(rest) && forall i :: 0 <= i < |rest| ==> KeyLess(e.key, rest[i].key)
    ensures StrictlySorted([e] + rest)
  {}

  lemma {:induction false} InsertSorts<T>(e: Entry<T>, sorted: seq<Entry<T>>)
    requires StrictlySorted(sorted) && forall i :: 0 <= i < |sorted| ==> sorted[i].key != e.key
    ensures StrictlySorted(Insert(e, sorted))
  {
    if sorted == [] {
    } else if KeyLess(e.key, sorted[0].key) {
      forall i | 0 <= i < |sorted| ensures KeyLess(e.key, sorted[i].key) {
        if i > 0 { KeyLessIsTransitive(e.key, sorted[0].key, sorted[i].key); }
      }
      SortedCons(e, sorted);
    } else {
      var tail := Insert(e, sorted[1..]);
      InsertSorts(e, sorted[1..]);
      KeyLessIsTotal(e.key, sorted[0].key);
      InsertIsPermutation(e, sorted[1..]);
      forall i | 0 <= i < |tail| ensures KeyLess(sorted[0].key, tail[i].key) {
        assert tail[i] in multiset(tail);
        assert tail[i] == e || tail[i] in sorted[1..];
      }
      SortedCons(sorted[0], tail);
    }
  }

  lemma {:induction false} SortSorts<T>(entries: seq<Entry<T>>)
    requires DistinctKeys(entries)
    ensures StrictlySorted(Sort(entries))
  {
    if entries != [] {
      var sorted := Sort(entries[1..]);
      SortSorts(entries[1..]);
      SortIsPermutation(entries[1..]);
      forall i | 0 <= i < |sorted| ensures sorted[i].key != entries[0].key {
        assert sorted[i] in multiset(sorted);
        assert sorted[i] in entries[1..];
      }
      InsertSorts(entries[0], sorted);
    }
  }

  /** A strictly sorted sequence is determined by its elements. */
  lemma {:induction false} SortedIsUnique<T>(p: seq<Entry<T>>, q: seq<Entry<T>>)
    requires StrictlySorted(p) && StrictlySorted(q) && multiset(p) == multiset(q)
    ensures p == q
    decreases |p|
  {
    assert |multiset(p)| == |multiset(q)|;
    if p != [] {
      SameFirst(p, q);
      assert p == [p[0]] + p[1..] && q == [q[0]] + q[1..];
      assert multiset(p[1..]) == multiset(p) - multiset{p[0]};
      assert multiset(q[1..]) == multiset(q) - multiset{q[0]};
      SortedIsUnique(p[1..], q[1..]);
    }
  }

  lemma {:induction false} SameFirst<T>(p: seq<Entry<T>>, q: seq<Entry<T>>)
    requires StrictlySorted(p) && StrictlySorted(q) && multiset(p) == multiset(q) && p != [] && q != []
    ensures p[0] == q[0]
  {
    assert p[0] in multiset(q) && q[0] in multiset(p);
    LeastFirst(p, q[0]);
    LeastFirst(q, p[0]);
    KeyLessIsIrreflexive(p[0].key);
    if KeyLess(p[0].key, q[0].key) && KeyLess(q[0].key, p[0].key) {
      KeyLessIsTransitive(p[0].key, q[0].key, p[0].key);
    }
  }

  lemma {:induction false} LeastFirst<T>(p: seq<Entry<T>>, e: Entry<T>)
    requires StrictlySorted(p) && e in p
    ensures e == p[0] || KeyLess(p[0].key, e.key)
  {
    var i :| 0 <= i < |p| && p[i] == e;
  }

  // ------------------------------------------------------- printing normal forms

  /** `Canonical` without the sorting. */
  function Print(v: Json): Text
    decreases v, 1
  {
    match v
    case Null => NULL_TEXT
    case Bool(b) => if b then TRUE_TEXT else FALSE_TEXT
    case Number(d) => d
    case NonFinite => NULL_TEXT
    case Str(s) => Quoted(s)
    case Arr(items) => [LBRACKET] + Join(PrintItems(items)) + [RBRACKET]
    case Obj(members) => [LBRACE] + Join(MemberTexts(PrintMembers(members))) + [RBRACE]
  }

  function PrintItems(items: seq<Json>): (r: seq<Text>)
    ensures |r| == |items|
    decreases items, 0
  {
    if items == [] then [] else [Print(items[0])] + PrintItems(items[1..])
  }

  function PrintMembers(members: seq<Entry<Json>>): (r: seq<Entry<Text>>)
    ensures |r| == |members|
    ensures forall i :: 0 <= i < |members| ==> r[i].key == members[i].key
    decreases members, 0
  {
    if members == [] then []
    else [Entry(members[0].key, Print(members[0].value))] + PrintMembers(members[1..])
  }

  lemma {:induction false} InsertPrints(e: Entry<Json>, sorted: seq<Entry<Json>>)
    ensures PrintMembers(Insert(e, sorted)) == Insert(Entry(e.key, Print(e.value)), PrintMembers(sorted))
  {
    if sorted == [] || KeyLess(e.key, sorted[0].key) {
      assert ([e] + sorted)[1..] == sorted;
    } else {
      InsertPrints(e, sorted[1..]);
      assert ([sorted[0]] + Insert(e, sorted[1..]))[1..] == Insert(e, sorted[1..]);
    }
  }

  lemma {:induction false} SortPrints(members: seq<Entry<Json>>)
    ensures PrintMembers(Sort(members)) == Sort(PrintMembers(members))
  {
    if members != [] {
      SortPrints(members[1..]);
      InsertPrints(members[0], Sort(members[1..]));
      assert PrintMembers(members)[1..] == PrintMembers(members[1..]);
    }
  }

  /** `canonical` prints the normal form. */
  lemma {:induction false} CanonicalIsPrint(v: Json)
    ensures Canonical(v) == Print(Normal(v))
    decreases v, 1
  {
    match v
    case Arr(items) => CanonicalItemsArePrints(items);
    case Obj(members) =>
      CanonicalMembersArePrints(members);
      SortPrints(NormalMembers(members));
    case _ =>
  }

  lemma {:induction false} CanonicalItemsArePrints(items: seq<Json>)
    ensures CanonicalItems(items) == PrintItems(NormalItems(items))
    decreases items, 0
  {
    if items != [] {
      CanonicalIsPrint(items[0]);
      CanonicalItemsArePrints(items[1..]);
      assert NormalItems(items)[1..] == NormalItems(items[1..]);
    }
  }

  lemma {:induction false} CanonicalMembersArePrints(members: seq<Entry<Json>>)
    ensures CanonicalMembers(members) == PrintMembers(NormalMembers(members))
    decreases members, 0
  {
    if members != [] {
      CanonicalIsPrint(members[0].value);
      CanonicalMembersArePrints(members[1..]);
      assert NormalMembers(members)[1..] == NormalMembers(members[1..]);
    }
  }

  // -------------------------------------------- normal forms and equality

  lemma {:induction false} NormalKeepsKeys(members: seq<Entry<Json>>)
    requires DistinctKeys(members)
    ensures DistinctKeys(NormalMembers(members))
  {}

  /** Equal values have the same normal form. */
  lemma {:induction false} SameIsNormal(a: Json, b: Json)
    requires WellFormed(a) && WellFormed(b) && Same(a, b)
    ensures Normal(a) == Normal(b)
    decreases a
  {
    match a
    case Arr(items) =>
      forall i | 0 <= i < |items| ensures Normal(items[i]) == Normal(b.items[i]) {
        SameIsNormal(items[i], b.items[i]);
      }
      assert NormalItems(items) == NormalItems(b.items);
    case Obj(members) =>
      var p, q := NormalMembers(members), NormalMembers(b.members);
      forall i | 0 <= i < |members| ensures p[i] in q {
        assert HasPartner(members[i], b.members);
        var j :| 0 <= j < |b.members| && members[i].key == b.members[j].key
                 && Same(members[i].value, b.members[j].value);
        SameIsNormal(members[i].value, b.members[j].value);
        assert q[j] == p[i];
      }
      NormalKeepsKeys(members);
      NormalKeepsKeys(b.members);
      ContainedIsPermutation(p, q);
      SortOfPermutation(p, q);
    case _ =>
  }

  lemma {:induction false} SortOfPermutation<T>(p: seq<Entry<T>>, q: seq<Entry<T>>)
    requires DistinctKeys(p) && DistinctKeys(q) && multiset(p) == multiset(q)
    ensures Sort(p) == Sort(q)
  {
    SortIsPermutation(p);
    SortIsPermutation(q);
    SortSorts(p);
    SortSorts(q);
    SortedIsUnique(Sort(p), Sort(q));
  }

  /** Pigeonhole: as many entries, with distinct keys, each found on the other side. */
  lemma {:induction false} ContainedIsPermutation<T>(p: seq<Entry<T>>, q: seq<Entry<T>>)
    requires |p| == |q| && DistinctKeys(p) && forall i :: 0 <= i < |p| ==> p[i] in q
    ensures multiset(p) == multiset(q)
    decreases |p|
  {
    if p != [] {
      var j :| 0 <= j < |q| && q[j] == p[0];
      var rest := q[..j] + q[j + 1..];
      assert q == q[..j] + [q[j]] + q[j + 1..];
      forall i | 0 <= i < |p[1..]| ensures p[1..][i] in rest {
        var e := p[1..][i];
        assert e == p[i + 1] && e.key != p[0].key;
        var k :| 0 <= k < |q| && q[k] == e;
        assert if k < j then rest[k] == e else rest[k - 1] == e;
      }
      ContainedIsPermutation(p[1..], rest);
      assert p == [p[0]] + p[1..];
    }
  }

  /** Values with the same normal form are equal. */
  lemma {:induction false} NormalIsSame(a: Json, b: Json)
    requires Normal(a) == Normal(b)
    ensures Same(a, b)
    decreases a
  {
    match a
    case Arr(items) =>
      assert NormalItems(items) == NormalItems(b.items);
      forall i | 0 <= i < |items| ensures Same(items[i], b.items[i]) {
        assert Normal(items[i]) == NormalItems(items)[i];
        NormalIsSame(items[i], b.items[i]);
      }
    case Obj(members) => NormalIsSameMembers(members, b.members);
    case _ =>
  }

  lemma {:induction false} NormalIsSameMembers(members: seq<Entry<Json>>, others: seq<Entry<Json>>)
    requires Sort(NormalMembers(members)) == Sort(NormalMembers(others))
    ensures Same(Obj(members), Obj(others))
    decreases members
  {
    forall i | 0 <= i < |members| ensures HasPartner(members[i], others) {
      var j := Counterpart(members, others, i);
      NormalIsSame(members[i].value, others[j].value);
    }
    SortIsPermutation(NormalMembers(members));
    SortIsPermutation(NormalMembers(others));
  }

  lemma {:induction false} Counterpart(members: seq<Entry<Json>>, others: seq<Entry<Json>>, i: nat) returns (j: nat)
    requires Sort(NormalMembers(members)) == Sort(NormalMembers(others)) && i < |members|
    ensures j < |others| && members[i].key == others[j].key
    ensures Normal(members[i].value) == Normal(others[j].value)
  {
    var p, q := NormalMembers(members), NormalMembers(others);
    SortIsPermutation(p);
    SortIsPermutation(q);
    assert p[i] in multiset(p);
    assert p[i] in multiset(q);
    j :| 0 <= j < |q| && q[j] == p[i];
  }

  // -------------------------------------------------------------- the reader

  function HexDigitValue(u: CodeUnit): nat {
    if 48 <= u <= 57 then u - 48 else if 97 <= u <= 102 then u - 87 else 0
  }

  function LongEscapeValue(t: Text): CodeUnit
    requires |t| >= 6
  {
    (HexDigitValue(t[2]) * 4096 + HexDigitValue(t[3]) * 256 + HexDigitValue(t[4]) * 16 + HexDigitValue(t[5]))
    % 65536
  }

  function ShortEscapeValue(u: CodeUnit): CodeUnit {
    if u == 98 then 8 else if u == 116 then 9 else if u == 110 then 10 else if u == 102 then 12
    else if u == 114 then 13 else u
  }

  /** One code unit of a string literal and the number of units it takes; 0 if there is none. */
  function ReadUnit(t: Text): (r: (CodeUnit, nat))
    ensures r.1 <= |t|
  {
    if t == [] || t[0] == QUOTE then (0, 0)
    else if t[0] != BACKSLASH then (t[0], 1)
    else if |t| < 2 then (0, 0)
    else if t[1] != LOWER_U then (ShortEscapeValue(t[1]), 2)
    else if |t| < 6 then (0, 0)
    else (LongEscapeValue(t), 6)
  }

  /** The rest of a string literal behind its opening quote, and what follows the closing one. */
  function ReadString(t: Text): (r: Option<(Text, Text)>)
    ensures r.Some? ==> |r.value.1| < |t|
    decreases |t|
  {
    if t == [] then None
    else if t[0] == QUOTE then Some(([], t[1..]))
    else
      var (u, used) := ReadUnit(t);
      if used == 0 then None
      else
        match ReadString(t[used..])
        case None => None
        case Some((s, rest)) => Some(([u] + s, rest))
  }

  function NumeralPrefix(t: Text): (r: nat)
    ensures r <= |t|
    ensures forall i :: 0 <= i < r ==> IsNumeral(t[i])
    ensures r < |t| ==> !IsNumeral(t[r])
  {
    if t == [] || !IsNumeral(t[0]) then 0
    else
      var n := NumeralPrefix(t[1..]);
      assert forall i :: 1 <= i < n + 1 ==> t[i] == t[1..][i - 1];
      n + 1
  }

  function ReadValue(t: Text): (r: Option<(Json, Text)>)
    ensures r.Some? ==> |r.value.1| < |t|
    decreases |t|, 0
  {
    if t == [] then None
    else if t[0] == QUOTE then
      match ReadString(t[1..]) { case None => None case Some((s, rest)) => Some((Str(s), rest)) }
    else if t[0] == LBRACKET then
      if |t| > 1 && t[1] == RBRACKET then Some((Arr([]), t[2..]))
      else match ReadItems(t[1..]) { case None => None case Some((items, rest)) => Some((Arr(items), rest)) }
    else if t[0] == LBRACE then
      if |t| > 1 && t[1] == RBRACE then Some((Obj([]), t[2..]))
      else match ReadMembers(t[1..]) { case None => None case Some((ms, rest)) => Some((Obj(ms), rest)) }
    else if IsNumeral(t[0]) then Some((Number(t[..NumeralPrefix(t)]), t[NumeralPrefix(t)..]))
    else if t[0] == NULL_TEXT[0] then (if |t| < 4 then None else Some((Null, t[4..])))
    else if t[0] == TRUE_TEXT[0] then (if |t| < 4 then None else Some((Bool(true), t[4..])))
    else if |t| < 5 then None else Some((Bool(false), t[5..]))
  }

  function ReadItems(t: Text): (r: Option<(seq<Json>, Text)>)
    ensures r.Some? ==> |r.value.1| < |t|
    decreases |t|, 1
  {
    match ReadValue(t)
    case None => None
    case Some((v, rest)) =>
      if rest == [] then None
      else if rest[0] == COMMA then
        match ReadItems(rest[1..]) { case None => None case Some((vs, more)) => Some(([v] + vs, more)) }
      else Some(([v], rest[1..]))
  }

  function ReadMembers(t: Text): (r: Option<(seq<Entry<Json>>, Text)>)
    ensures r.Some? ==> |r.value.1| < |t|
    decreases |t|, 1
  {
    if t == [] then None
    else
      match ReadString(t[1..])
      case None => None
      case Some((k, afterKey)) =>
        if afterKey == [] then None
        else
          match ReadValue(afterKey[1..])
          case None => None
          case Some((v, rest)) =>
            if rest == [] then None
            else if rest[0] == COMMA then
              match ReadMembers(rest[1..]) {
                case None => None
                case Some((ms, more)) => Some(([Entry(k, v)] + ms, more))
              }
            else Some(([Entry(k, v)], rest[1..]))
  }

  // -------------------------------------------------------- reading what is printed

  lemma {:induction false} ReadsUnicodeEscape(u: CodeUnit, x: Text)
    ensures ReadUnit(UnicodeEscape(u) + x) == (u, 6)
  {
    var t := UnicodeEscape(u) + x;
    HexReads(u / 4096);
    HexReads(u / 256 % 16);
    HexReads(u / 16 % 16);
    HexReads(u % 16);
    HexDigits(u);
    assert t[2] == HexUnit(u / 4096) && t[3] == HexUnit(u / 256 % 16);
    assert t[4] == HexUnit(u / 16 % 16) && t[5] == HexUnit(u % 16);
  }

  lemma {:induction false} HexReads(d: nat)
    requires d < 16
    ensures HexDigitValue(HexUnit(d)) == d
  {}

  lemma {:induction false} HexDigits(u: nat)
    requires u < 65536
    ensures u / 4096 * 4096 + u / 256 % 16 * 256 + u / 16 % 16 * 16 + u % 16 == u
  {
    var a := u / 16;
    var b := a / 16;
    assert u == 16 * a + u % 16 && a == 16 * b + a % 16 && b == 16 * (b / 16) + b % 16;
    assert u / 256 == b && u / 4096 == b / 16;
  }

  lemma {:induction false} ReadsUnit(u: CodeUnit, x: Text)
    ensures ReadUnit(EscapeUnit(u) + x) == (u, |EscapeUnit(u)|)
  {
    var t := EscapeUnit(u) + x;
    if ShortEscape(u) != 0 {
      assert t[0] == BACKSLASH && t[1] == ShortEscape(u);
    } else if u < 32 {
      ReadsUnicodeEscape(u, x);
    } else {
      assert t[0] == u;
    }
  }

  /** One step of `ReadString`. */
  lemma {:induction false} ReadStringStep(e: Text, u: CodeUnit, tail: Text, s: Text, x: Text)
    requires e != [] && e[0] != QUOTE && ReadUnit(e + tail) == (u, |e|)
    requires ReadString(tail) == Some((s, x))
    ensures ReadString(e + tail) == Some(([u] + s, x))
  {
    assert (e + tail)[|e|..] == tail && (e + tail)[0] == e[0];
  }

  /** A unit kept or escaped, then the rest. */
  lemma {:induction false} ReadsSingle(u: CodeUnit, e: Text, tail: Text, s: Text, x: Text)
    requires e == UnicodeEscape(u) || e == EscapeUnit(u)
    requires ReadString(tail) == Some((s, x))
    ensures ReadString(e + tail) == Some(([u] + s, x))
  {
    ReadsUnit(u, tail);
    ReadsUnicodeEscape(u, tail);
    ReadStringStep(e, u, tail, s, x);
  }

  lemma {:induction false} TwoInFront(a: CodeUnit, b: CodeUnit, t: Text)
    ensures [a] + ([b] + t) == [a, b] + t
  {}

  lemma {:induction false} ReadsPair(high: CodeUnit, low: CodeUnit, tail: Text, s: Text, x: Text)
    requires IsHigh(high) && IsLow(low) && ReadString(tail) == Some((s, x))
    ensures ReadString([high, low] + tail) == Some(([high, low] + s, x))
  {
    ReadsSingle(low, [low], tail, s, x);
    ReadsSingle(high, [high], [low] + tail, [low] + s, x);
    TwoInFront(high, low, tail);
    TwoInFront(high, low, s);
  }

  /** How a code unit without a partner is written. */
  function LoneText(u: CodeUnit): Text {
    if IsHigh(u) || IsLow(u) then UnicodeEscape(u) else EscapeUnit(u)
  }

  lemma {:induction false} EscapeSingle(s: Text)
    requires s != [] && !(|s| > 1 && IsHigh(s[0]) && IsLow(s[1]))
    ensures Escape(s) == LoneText(s[0]) + Escape(s[1..])
  {}

  lemma {:induction false} ReadsString(s: Text, x: Text)
    ensures ReadString(Escape(s) + ([QUOTE] + x)) == Some((s, x))
    decreases |s|
  {
    var close := [QUOTE] + x;
    if s == [] {
      assert Escape(s) + close == close;
      assert close[1..] == x;
    } else if IsHigh(s[0]) && |s| > 1 && IsLow(s[1]) {
      ReadsString(s[2..], x);
      ReadsPair(s[0], s[1], Escape(s[2..]) + close, s[2..], x);
      Regroup([s[0], s[1]], Escape(s[2..]), close);
      assert s == [s[0], s[1]] + s[2..];
    } else {
      ReadsString(s[1..], x);
      ReadsSingle(s[0], LoneText(s[0]), Escape(s[1..]) + close, s[1..], x);
      EscapeSingle(s);
      Regroup(LoneText(s[0]), Escape(s[1..]), close);
      assert s == [s[0]] + s[1..];
    }
  }

  /** What may follow a value inside a text: nothing, or a separator or closing bracket. */
  predicate Delimited(x: Text) {
    x == [] || x[0] == COMMA || x[0] == RBRACKET || x[0] == RBRACE
  }

  predicate Printable(v: Json) {
    match v
    case NonFinite => false
    case Number(d) => IsDecimal(d)
    case Arr(items) => forall i :: 0 <= i < |items| ==> Printable(items[i])
    case Obj(members) => forall i :: 0 <= i < |members| ==> Printable(members[i].value)
    case _ => true
  }

  lemma {:induction false} PrintStarts(v: Json)
    requires Printable(v)
    ensures Print(v) != [] && Print(v)[0] != RBRACKET
  {}

  lemma {:induction false} NumeralPrefixIs(d: Text, x: Text)
    requires forall i :: 0 <= i < |d| ==> IsNumeral(d[i])
    requires Delimited(x)
    ensures NumeralPrefix(d + x) == |d|
  {
    if d == [] {
      assert d + x == x;
    } else {
      assert (d + x)[1..] == d[1..] + x;
      NumeralPrefixIs(d[1..], x);
    }
  }

  lemma {:induction false} ReadsValue(v: Json, x: Text)
    requires Printable(v) && Delimited(x)
    ensures ReadValue(Print(v) + x) == Some((v, x))
    decreases v, 1
  {
    match v
    case Null => assert (NULL_TEXT + x)[4..] == x;
    case Bool(b) =>
      if b { assert (TRUE_TEXT + x)[4..] == x; } else { assert (FALSE_TEXT + x)[5..] == x; }
    case Number(d) =>
      NumeralPrefixIs(d, x);
      assert (d + x)[0] == d[0] && (d + x)[..|d|] == d && (d + x)[|d|..] == x;
    case Str(s) => ReadsQuoted(s, x);
    case Arr(items) => ReadsArray(items, x);
    case Obj(members) => ReadsObject(members, x);
  }

  lemma {:induction false} ReadsQuoted(s: Text, x: Text)
    ensures var t := Quoted(s) + x; t[0] == QUOTE && ReadString(t[1..]) == Some((s, x))
  {
    ReadsString(s, x);
    assert (Quoted(s) + x)[1..] == Escape(s) + ([QUOTE] + x);
  }

  lemma {:induction false} ReadsArray(items: seq<Json>, x: Text)
    requires forall i :: 0 <= i < |items| ==> Printable(items[i])
    ensures ReadValue(Print(Arr(items)) + x) == Some((Arr(items), x))
    decreases items, 2
  {
    var t := Print(Arr(items)) + x;
    var inner := Join(PrintItems(items)) + ([RBRACKET] + x);
    assert t[0] == LBRACKET && t[1..] == inner;
    if items == [] {
      assert inner == [RBRACKET] + x;
      assert t[1] == RBRACKET && t[2..] == x;
    } else {
      ReadsItems(items, x);
      PrintStarts(items[0]);
      JoinStarts(PrintItems(items));
      assert t[1] == inner[0] == Print(items[0])[0];
    }
  }

  lemma {:induction false} JoinStarts(texts: seq<Text>)
    requires texts != [] && texts[0] != []
    ensures Join(texts) != [] && Join(texts)[0] == texts[0][0]
  {}

  lemma {:induction false} ReadsItems(items: seq<Json>, x: Text)
    requires items != [] && forall i :: 0 <= i < |items| ==> Printable(items[i])
    ensures ReadItems(Join(PrintItems(items)) + ([RBRACKET] + x)) == Some((items, x))
    decreases items, 1
  {
    var texts, close := PrintItems(items), [RBRACKET] + x;
    if |items| == 1 {
      ReadsValue(items[0], close);
      assert texts == [Print(items[0])];
      assert close[1..] == x && items == [items[0]];
    } else {
      var tail := [COMMA] + (Join(texts[1..]) + close);
      ReadsItems(items[1..], x);
      ReadsValue(items[0], tail);
      assert texts[1..] == PrintItems(items[1..]);
      JoinParts(texts, close);
      assert tail[1..] == Join(texts[1..]) + close && items == [items[0]] + items[1..];
    }
  }

  lemma {:induction false} JoinParts(texts: seq<Text>, close: Text)
    requires |texts| > 1
    ensures Join(texts) + close == texts[0] + ([COMMA] + (Join(texts[1..]) + close))
  {}

  lemma {:induction false} ReadsObject(members: seq<Entry<Json>>, x: Text)
    requires forall i :: 0 <= i < |members| ==> Printable(members[i].value)
    ensures ReadValue(Print(Obj(members)) + x) == Some((Obj(members), x))
    decreases members, 2
  {
    var t := Print(Obj(members)) + x;
    var texts := MemberTexts(PrintMembers(members));
    var inner := Join(texts) + ([RBRACE] + x);
    assert t[0] == LBRACE && t[1..] == inner;
    if members == [] {
      assert inner == [RBRACE] + x;
      assert t[1] == RBRACE && t[2..] == x;
    } else {
      ReadsMembers(members, x);
      JoinStarts(texts);
      assert t[1] == inner[0] == QUOTE;
    }
  }

  lemma {:induction false} ReadsMembers(members: seq<Entry<Json>>, x: Text)
    requires members != [] && forall i :: 0 <= i < |members| ==> Printable(members[i].value)
    ensures ReadMembers(Join(MemberTexts(PrintMembers(members))) + ([RBRACE] + x)) == Some((members, x))
    decreases members, 1
  {
    var texts, close := MemberTexts(PrintMembers(members)), [RBRACE] + x;
    if |members| == 1 {
      ReadsValue(members[0].value, close);
      MemberTextParts(members[0], close);
      assert texts == [MemberText(Entry(members[0].key, Print(members[0].value)))];
      ReadsMember(members[0], close);
      assert close[1..] == x && members == [members[0]];
    } else {
      var tail := [COMMA] + (Join(texts[1..]) + close);
      ReadsMembers(members[1..], x);
      ReadsValue(members[0].value, tail);
      MemberTextParts(members[0], tail);
      ReadsMember(members[0], tail);
      TextsOfRest(members);
      JoinParts(texts, close);
      assert tail[1..] == Join(texts[1..]) + close && members == [members[0]] + members[1..];
    }
  }

  lemma {:induction false} TextsOfRest(members: seq<Entry<Json>>)
    requires members != []
    ensures MemberTexts(PrintMembers(members))[1..] == MemberTexts(PrintMembers(members[1..]))
    ensures MemberTexts(PrintMembers(members))[0] == MemberText(Entry(members[0].key, Print(members[0].value)))
  {
    assert PrintMembers(members)[1..] == PrintMembers(members[1..]);
  }

  lemma {:induction false} MemberTextParts(m: Entry<Json>, tail: Text)
    ensures MemberText(Entry(m.key, Print(m.value))) + tail
         == Quoted(m.key) + ([COLON] + (Print(m.value) + tail))
  {}

  /** One member is read back, whatever follows it. */
  lemma {:induction false} ReadsMember(m: Entry<Json>, tail: Text)
    requires ReadValue(Print(m.value) + tail) == Some((m.value, tail)) && tail != []
    ensures ReadMembers(Quoted(m.key) + ([COLON] + (Print(m.value) + tail)))
         == if tail[0] == COMMA then
              (match ReadMembers(tail[1..])
               case None => None
               case Some((ms, more)) => Some(([m] + ms, more)))
            else Some(([m], tail[1..]))
  {
    ReadsQuoted(m.key, [COLON] + (Print(m.value) + tail));
    assert ([COLON] + (Print(m.value) + tail))[1..] == Print(m.value) + tail;
  }

  // ------------------------------------------------------------------ theorem

  lemma {:induction false} NormalIsPrintable(v: Json)
    requires WellFormed(v)
    ensures Printable(Normal(v))
    decreases v
  {
    match v
    case Arr(items) =>
      forall i | 0 <= i < |items| ensures Printable(NormalItems(items)[i]) {
        NormalIsPrintable(items[i]);
      }
    case Obj(members) =>
      var p := NormalMembers(members);
      forall i | 0 <= i < |p| ensures Printable(p[i].value) {
        NormalIsPrintable(members[i].value);
      }
      SortIsPermutation(p);
      forall i | 0 <= i < |Sort(p)| ensures Printable(Sort(p)[i].value) {
        assert Sort(p)[i] in multiset(Sort(p));
        assert Sort(p)[i] in p;
      }
    case _ =>
  }

  /** Equal canonical texts mean equal values, and the converse; a non-finite number counts as null. */
  lemma {:induction false} CanonicalDecidesSame(a: Json, b: Json)
    requires WellFormed(a) && WellFormed(b)
    ensures Canonical(a) == Canonical(b) <==> Same(a, b)
  {
    CanonicalIsPrint(a);
    CanonicalIsPrint(b);
    if Canonical(a) == Canonical(b) {
      NormalIsPrintable(a);
      NormalIsPrintable(b);
      ReadsValue(Normal(a), []);
      ReadsValue(Normal(b), []);
      NormalIsSame(a, b);
    }
    if Same(a, b) {
      SameIsNormal(a, b);
    }
  }
}
