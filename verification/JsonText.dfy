/** JSON values as `qualification/v1/validate.ts` sees them, and their canonical text.

    A text is a sequence of UTF-16 code units. `canonical` prints a value with the members of every object
    sorted by key; receipts and contract are compared by comparing these texts. */
module JsonText {
  type CodeUnit = u: nat | u < 65536

  type Text = seq<CodeUnit>

  const QUOTE: CodeUnit := 34
  const COMMA: CodeUnit := 44
  const COLON: CodeUnit := 58
  const BACKSLASH: CodeUnit := 92
  const LOWER_U: CodeUnit := 117
  const LBRACKET: CodeUnit := 91
  const RBRACKET: CodeUnit := 93
  const LBRACE: CodeUnit := 123
  const RBRACE: CodeUnit := 125

  const NULL_TEXT: Text := [110, 117, 108, 108]
  const TRUE_TEXT: Text := [116, 114, 117, 101]
  const FALSE_TEXT: Text := [102, 97, 108, 115, 101]

  datatype Entry<T> = Entry(key: Text, value: T)

  /** A finite number is given by its decimal text: the number-to-string conversion of the language
      distinguishes all finite numbers but 0 and -0. `NonFinite` is what JSON.parse makes of a literal too
      large for a double. Members are in insertion order. */
  datatype Json =
    | Null
    | Bool(b: bool)
    | Number(decimal: Text)
    | NonFinite
    | Str(s: Text)
    | Arr(items: seq<Json>)
    | Obj(members: seq<Entry<Json>>)

  predicate IsNumeral(u: CodeUnit) {
    48 <= u <= 57 || u == 43 || u == 45 || u == 46 || u == 101
  }

  /** Digits, signs, point and exponent mark, starting with a digit or a minus sign. */
  predicate IsDecimal(t: Text) {
    t != [] && (48 <= t[0] <= 57 || t[0] == 45) && forall i :: 0 <= i < |t| ==> IsNumeral(t[i])
  }

  predicate DistinctKeys<T>(members: seq<Entry<T>>) {
    forall i, j :: 0 <= i < j < |members| ==> members[i].key != members[j].key
  }

  /** Numbers have decimal texts and no object repeats a key. */
  predicate WellFormed(v: Json) {
    match v
    case Number(d) => IsDecimal(d)
    case Arr(items) => forall i :: 0 <= i < |items| ==> WellFormed(items[i])
    case Obj(members) =>
      DistinctKeys(members) && forall i :: 0 <= i < |members| ==> WellFormed(members[i].value)
    case _ => true
  }

  // ----------------------------------------------------------- string literals

  predicate IsHigh(u: CodeUnit) { 0xD800 <= u < 0xDC00 }

  predicate IsLow(u: CodeUnit) { 0xDC00 <= u < 0xE000 }

  function HexUnit(d: nat): CodeUnit
    requires d < 16
  {
    if d < 10 then 48 + d else 87 + d
  }

  function UnicodeEscape(u: CodeUnit): Text {
    [BACKSLASH, LOWER_U, HexUnit(u / 4096), HexUnit(u / 256 % 16), HexUnit(u / 16 % 16), HexUnit(u % 16)]
  }

  /** The letter of a two-character escape, or 0. */
  function ShortEscape(u: CodeUnit): CodeUnit {
    if u == 8 then 98 else if u == 9 then 116 else if u == 10 then 110 else if u == 12 then 102
    else if u == 13 then 114 else if u == QUOTE then QUOTE else if u == BACKSLASH then BACKSLASH else 0
  }

  function EscapeUnit(u: CodeUnit): Text {
    if ShortEscape(u) != 0 then [BACKSLASH, ShortEscape(u)]
    else if u < 32 then UnicodeEscape(u)
    else [u]
  }

  /** The inside of `JSON.stringify` of a string: surrogate pairs stay, lone surrogates are escaped. */
  function Escape(s: Text): Text
    decreases |s|
  {
    if s == [] then []
    else if IsHigh(s[0]) && |s| > 1 && IsLow(s[1]) then [s[0], s[1]] + Escape(s[2..])
    else if IsHigh(s[0]) || IsLow(s[0]) then UnicodeEscape(s[0]) + Escape(s[1..])
    else EscapeUnit(s[0]) + Escape(s[1..])
  }

  function Quoted(s: Text): Text {
    [QUOTE] + Escape(s) + [QUOTE]
  }

  // -------------------------------------------------------------- sorting keys

  /** The order of `Array.prototype.sort` on strings: code unit by code unit. */
  predicate KeyLess(a: Text, b: Text) {
    b != [] && (a == [] || a[0] < b[0] || (a[0] == b[0] && KeyLess(a[1..], b[1..])))
  }

  function Insert<T>(e: Entry<T>, sorted: seq<Entry<T>>): seq<Entry<T>> {
    if sorted == [] || KeyLess(e.key, sorted[0].key) then [e] + sorted
    else [sorted[0]] + Insert(e, sorted[1..])
  }

  function Sort<T>(entries: seq<Entry<T>>): seq<Entry<T>> {
    if entries == [] then [] else Insert(entries[0], Sort(entries[1..]))
  }

  // ------------------------------------------------------------- the canonical text

  function Join(texts: seq<Text>): Text {
    if texts == [] then []
    else if |texts| == 1 then texts[0]
    else texts[0] + [COMMA] + Join(texts[1..])
  }

  function MemberText(e: Entry<Text>): Text {
    Quoted(e.key) + [COLON] + e.value
  }

  function MemberTexts(entries: seq<Entry<Text>>): (r: seq<Text>)
    ensures |r| == |entries|
  {
    if entries == [] then [] else [MemberText(entries[0])] + MemberTexts(entries[1..])
  }

  /** `canonical`. */
  function Canonical(v: Json): Text
    decreases v, 1
  {
    match v
    case Null => NULL_TEXT
    case Bool(b) => if b then TRUE_TEXT else FALSE_TEXT
    case Number(d) => d
    case NonFinite => NULL_TEXT
    case Str(s) => Quoted(s)
    case Arr(items) => [LBRACKET] + Join(CanonicalItems(items)) + [RBRACKET]
    case Obj(members) => [LBRACE] + Join(MemberTexts(Sort(CanonicalMembers(members)))) + [RBRACE]
  }

  function CanonicalItems(items: seq<Json>): (r: seq<Text>)
    ensures |r| == |items|
    decreases items, 0
  {
    if items == [] then [] else [Canonical(items[0])] + CanonicalItems(items[1..])
  }

  function CanonicalMembers(members: seq<Entry<Json>>): (r: seq<Entry<Text>>)
    ensures |r| == |members|
    decreases members, 0
  {
    if members == [] then []
    else [Entry(members[0].key, Canonical(members[0].value))] + CanonicalMembers(members[1..])
  }

  // -------------------------------------------------------------- normal forms

  /** Members sorted at every depth, and what prints as null made null. */
  function Normal(v: Json): Json
    decreases v, 1
  {
    match v
    case NonFinite => Null
    case Arr(items) => Arr(NormalItems(items))
    case Obj(members) => Obj(Sort(NormalMembers(members)))
    case _ => v
  }

  function NormalItems(items: seq<Json>): (r: seq<Json>)
    ensures |r| == |items|
    ensures forall i :: 0 <= i < |items| ==> r[i] == Normal(items[i])
    decreases items, 0
  {
    if items == [] then [] else [Normal(items[0])] + NormalItems(items[1..])
  }

  function NormalMembers(members: seq<Entry<Json>>): (r: seq<Entry<Json>>)
    ensures |r| == |members|
    ensures forall i :: 0 <= i < |members| ==> r[i] == Entry(members[i].key, Normal(members[i].value))
    decreases members, 0
  {
    if members == [] then []
    else [Entry(members[0].key, Normal(members[0].value))] + NormalMembers(members[1..])
  }

  // ------------------------------------------------- equality up to member order

  /** Equal up to the order of members at every depth, and up to non-finite numbers being null. */
  ghost predicate Same(a: Json, b: Json)
    decreases a
  {
    match a
    case Null => b == Null || b == NonFinite
    case NonFinite => b == Null || b == NonFinite
    case Bool(_) => a == b
    case Number(_) => a == b
    case Str(_) => a == b
    case Arr(items) =>
      b.Arr? && |items| == |b.items| && forall i :: 0 <= i < |items| ==> Same(items[i], b.items[i])
    case Obj(members) =>
      b.Obj? && |members| == |b.members|
      && forall i :: 0 <= i < |members| ==> HasPartner(members[i], b.members)
  }

  /** Some member has the same key and an equal value. */
  ghost predicate HasPartner(m: Entry<Json>, others: seq<Entry<Json>>)
    decreases m
  {
    exists j :: 0 <= j < |others| && m.key == others[j].key && Same(m.value, others[j].value)
  }
}
