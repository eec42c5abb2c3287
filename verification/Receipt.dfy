/** The set-matching loops of the V1 receipt validator (qualification/v1/validate.ts): `parseHashRows`,
    `validateHashRows` and `validateCases`, and exactly which receipts they accept. */
module Receipt {
  import opened Wrappers
  import opened Sequences
  import opened JsonText
  import opened Bytes

  function Ascii(s: string): Text {
    seq(|s|, i requires 0 <= i < |s| => if s[i] as nat < 128 then s[i] as nat else 63)
  }

  const ID := Ascii("id")
  const PATH := Ascii("path")
  const SHA256 := Ascii("sha256")
  const HASH_ROW_FIELDS := {ID, PATH, SHA256}

  /** The messages pushed on `errors`, by kind. */
  datatype Complaint =
    | NotAnArray
    | EntryNotAnObject
    | UnknownField(key: Text)
    | FieldsRequired
    | DuplicateId(id: Text)
    | BadDigest(id: Text)
    | WrongCount
    | UnknownId(id: Text)
    | PathDiffers(id: Text)
    | MissingOnDisk(id: Text)
    | DigestDiffers(id: Text)
    | MissingDeclared(id: Text)
    | CommandDiffers(id: Text)
    | ExpectedCodeDiffers(id: Text)
    | EvidenceRequired(id: Text)
    | MustRemainUnsatisfied(id: Text)
    | NotExecuted(id: Text)
    | DidNotPass(id: Text)
    | ObservedCodeDiffers(id: Text)
    | NetworkRequests(id: Text)
    | PrivateMatches(id: Text)
    | SafetyFailures(id: Text)
    | MissingCase(id: Text)
    | PassedButIncomplete
    | IncompatibleObservedCode
    | MustAwait
    | BadOutcome

  type Complaints = seq<Complaint>

  predicate IsFirstWith(members: seq<Entry<Json>>, key: Text, i: nat) {
    i < |members| && members[i].key == key && forall j :: 0 <= j < i ==> members[j].key != key
  }

  lemma {:induction false} FirstWithExists(members: seq<Entry<Json>>, key: Text, n: nat)
    requires n <= |members|
    ensures (exists j :: 0 <= j < n && members[j].key == key) ==> exists i :: IsFirstWith(members, key, i)
  {
    if n > 0 {
      FirstWithExists(members, key, n - 1);
      if members[n - 1].key == key && forall j :: 0 <= j < n - 1 ==> members[j].key != key {
        assert IsFirstWith(members, key, n - 1);
      }
    }
  }

  /** A property of an object; `None` when it is absent. */
  function Field(members: seq<Entry<Json>>, key: Text): (r: Option<Json>)
    ensures r.Some? ==> exists i :: 0 <= i < |members| && members[i] == Entry(key, r.value)
    ensures r.None? ==> forall i :: 0 <= i < |members| ==> members[i].key != key
  {
    FirstWithExists(members, key, |members|);
    if exists i :: 0 <= i < |members| && IsFirstWith(members, key, i) then
      var i :| 0 <= i < |members| && IsFirstWith(members, key, i);
      assert members[i] == Entry(key, members[i].value);
      Some(members[i].value)
    else None
  }

  predicate IsText(v: Option<Json>, t: Text) {
    v == Some(Str(t))
  }

  // ------------------------------------------------------------ unknown fields

  predicate OnlyFields(members: seq<Entry<Json>>, allowed: set<Text>) {
    forall i :: 0 <= i < |members| ==> members[i].key in allowed
  }

  function UnknownOf(m: Entry<Json>, allowed: set<Text>): Complaints {
    if m.key in allowed then [] else [UnknownField(m.key)]
  }

  function UnknownAmong(members: seq<Entry<Json>>, allowed: set<Text>, n: nat): (r: Complaints)
    requires n <= |members|
    ensures r == [] <==> forall i :: 0 <= i < n ==> members[i].key in allowed
  {
    if n == 0 then [] else UnknownAmong(members, allowed, n - 1) + UnknownOf(members[n - 1], allowed)
  }

  function UnknownFields(members: seq<Entry<Json>>, allowed: set<Text>): (r: Complaints)
    ensures r == [] <==> OnlyFields(members, allowed)
  {
    UnknownAmong(members, allowed, |members|)
  }

  method RejectUnknownFields(members: seq<Entry<Json>>, allowed: set<Text>, errors0: Complaints)
    returns (errors: Complaints)
    ensures errors == errors0 + UnknownFields(members, allowed)
  {
    errors := errors0;
    for i := 0 to |members|
      invariant errors == errors0 + UnknownAmong(members, allowed, i)
    {
      Regroup(errors0, UnknownAmong(members, allowed, i), UnknownOf(members[i], allowed));
      if members[i].key !in allowed { errors := errors + [UnknownField(members[i].key)]; }
    }
  }

  // -------------------------------------------------------------- parsing rows

  datatype HashRow = HashRow(id: Text, path: Text, sha256: Text)

  /** 64 lowercase hexadecimal digits. */
  predicate IsDigest(t: Text) {
    |t| == 64 && forall i :: 0 <= i < |t| ==> 48 <= t[i] <= 57 || 97 <= t[i] <= 102
  }

  /** What `parseHashRows` looks at in an entry. */
  datatype RowView = RowView(isObject: bool, unknown: Complaints, row: Option<HashRow>)

  /** An entry gives a row if its three fields are strings. */
  function ViewOf(row: Json): RowView {
    if !row.Obj? then RowView(false, [], None)
    else
      RowView(true, UnknownFields(row.members, HASH_ROW_FIELDS),
              match (Field(row.members, ID), Field(row.members, PATH), Field(row.members, SHA256))
              case (Some(Str(id)), Some(Str(path)), Some(Str(sha))) => Some(HashRow(id, path, sha))
              case _ => None)
  }

  function ViewsOf(items: seq<Json>): (r: seq<RowView>)
    ensures |r| == |items|
  {
    seq(|items|, i requires 0 <= i < |items| => ViewOf(items[i]))
  }

  function RowComplaints(e: RowView, seen: set<Text>): Complaints {
    if !e.isObject then [EntryNotAnObject]
    else
      e.unknown
      + match e.row
        case None => [FieldsRequired]
        case Some(r) =>
          (if r.id in seen then [DuplicateId(r.id)] else []) + (if IsDigest(r.sha256) then [] else [BadDigest(r.id)])
  }

  function OneRow(e: RowView): seq<HashRow> {
    if !e.isObject || e.row.None? then [] else [e.row.value]
  }

  /** The rows of the first `n` entries. */
  function RowsOf(es: seq<RowView>, n: nat): seq<HashRow>
    requires n <= |es|
  {
    if n == 0 then [] else RowsOf(es, n - 1) + OneRow(es[n - 1])
  }

  function ParsedRows(es: seq<RowView>): seq<HashRow> { RowsOf(es, |es|) }

  function Ids(rows: seq<HashRow>): (r: seq<Text>)
    ensures |r| == |rows|
  {
    seq(|rows|, i requires 0 <= i < |rows| => rows[i].id)
  }

  function ParseComplaintsOf(es: seq<RowView>, n: nat): Complaints
    requires n <= |es|
  {
    if n == 0 then []
    else ParseComplaintsOf(es, n - 1) + RowComplaints(es[n - 1], SetOf(Ids(RowsOf(es, n - 1))))
  }

  function ParseComplaints(es: seq<RowView>): Complaints { ParseComplaintsOf(es, |es|) }

  lemma {:induction false} IdsAppend(a: seq<HashRow>, b: seq<HashRow>)
    ensures Ids(a + b) == Ids(a) + Ids(b)
    ensures SetOf(Ids(a + b)) == SetOf(Ids(a)) + SetOf(Ids(b))
  {
    assert Ids(a + b) == Ids(a) + Ids(b);
  }

  /** The loop body of `parseHashRows`. */
  method ParseHashRow(row: Json, seen0: set<Text>, errors0: Complaints)
    returns (result: seq<HashRow>, seen: set<Text>, errors: Complaints)
    ensures result == OneRow(ViewOf(row)) && errors == errors0 + RowComplaints(ViewOf(row), seen0)
    ensures seen == seen0 + SetOf(Ids(result))
  {
    result, seen, errors := [], seen0, errors0;
    if !row.Obj? { return [], seen, errors + [EntryNotAnObject]; }
    errors := RejectUnknownFields(row.members, HASH_ROW_FIELDS, errors);
    var r := ViewOf(row).row;
    if r.None? { return [], seen, errors + [FieldsRequired]; }
    if r.value.id in seen { errors := errors + [DuplicateId(r.value.id)]; }
    seen := seen + {r.value.id};
    if !IsDigest(r.value.sha256) { errors := errors + [BadDigest(r.value.id)]; }
    result := [r.value];
    assert Ids(result) == [r.value.id];
  }

  /** `parseHashRows`. */
  method ParseHashRows(value: Json, errors0: Complaints) returns (result: seq<HashRow>, errors: Complaints)
    ensures value.Arr? ==>
              result == ParsedRows(ViewsOf(value.items)) && errors == errors0 + ParseComplaints(ViewsOf(value.items))
    ensures !value.Arr? ==> result == [] && errors == errors0 + [NotAnArray]
  {
    errors := errors0;
    if !value.Arr? { return [], errors + [NotAnArray]; }
    result := [];
    var seen: set<Text> := {};
    ghost var es := ViewsOf(value.items);
    for i := 0 to |value.items|
      invariant result == RowsOf(es, i) && seen == SetOf(Ids(result))
      invariant errors == errors0 + ParseComplaintsOf(es, i)
    {
      Regroup(errors0, ParseComplaintsOf(es, i), RowComplaints(es[i], seen));
      var parsed: seq<HashRow>;
      parsed, seen, errors := ParseHashRow(value.items[i], seen, errors);
      IdsAppend(result, parsed);
      result := result + parsed;
    }
  }

  // ------------------------------------------------------------ matching files

  datatype Declared = Declared(id: Text, path: Text)

  /** The file system below the root: where a relative path leads (`None` when it leaves the root), what
      exists there, and the digest of its content. */
  datatype Disk = Disk(resolve: Text -> Option<Text>, exists_: Text -> bool, digest: Text -> Text)

  predicate OnDisk(disk: Disk, path: Text) {
    match disk.resolve(path)
    case None => false
    case Some(p) => disk.exists_(p)
  }

  function DigestOf(disk: Disk, path: Text): Text
    requires OnDisk(disk, path)
  {
    disk.digest(disk.resolve(path).value)
  }

  /** `new Map(expected.map((item) => [item.id, item]))`: the last item of an id stays. */
  function ById(expected: seq<Declared>): (m: map<Text, Declared>)
    ensures forall id :: id in m ==> m[id].id == id && m[id] in expected
    ensures forall d :: d in expected ==> d.id in m
  {
    if expected == [] then map[]
    else
      var n := |expected| - 1;
      ById(expected[..n])[expected[n].id := expected[n]]
  }

  /** The last declaration of an id counts. */
  lemma {:induction false} LastDeclarationCounts(expected: seq<Declared>, k: nat)
    requires k < |expected| && forall j :: k < j < |expected| ==> expected[j].id != expected[k].id
    ensures expected[k].id in ById(expected) && ById(expected)[expected[k].id] == expected[k]
  {
    var n := |expected| - 1;
    if k < n {
      LastDeclarationCounts(expected[..n], k);
      assert expected[n].id != expected[k].id;
    }
  }

  function MatchComplaints(row: HashRow, byId: map<Text, Declared>, disk: Disk): Complaints {
    if row.id !in byId then [UnknownId(row.id)]
    else
      var d := byId[row.id];
      (if row.path != d.path then [PathDiffers(row.id)] else [])
      + (if !OnDisk(disk, d.path) then [MissingOnDisk(row.id)]
         else if IsDigest(row.sha256) && DigestOf(disk, d.path) != row.sha256 then [DigestDiffers(row.id)] else [])
  }

  function MatchComplaintsOf(rows: seq<HashRow>, byId: map<Text, Declared>, disk: Disk, n: nat): Complaints
    requires n <= |rows|
  {
    if n == 0 then [] else MatchComplaintsOf(rows, byId, disk, n - 1) + MatchComplaints(rows[n - 1], byId, disk)
  }

  predicate HasRow(rows: seq<HashRow>, id: Text) {
    exists i :: 0 <= i < |rows| && rows[i].id == id
  }

  function MissingOf(rows: seq<HashRow>, d: Declared): Complaints {
    if HasRow(rows, d.id) then [] else [MissingDeclared(d.id)]
  }

  function MissingComplaints(rows: seq<HashRow>, expected: seq<Declared>, n: nat): Complaints
    requires n <= |expected|
  {
    if n == 0 then [] else MissingComplaints(rows, expected, n - 1) + MissingOf(rows, expected[n - 1])
  }

  function CountComplaints(rows: seq<HashRow>, expected: seq<Declared>): Complaints {
    if |rows| != |expected| then [WrongCount] else []
  }

  function ValidateComplaints(rows: seq<HashRow>, expected: seq<Declared>, disk: Disk): Complaints {
    CountComplaints(rows, expected)
    + MatchComplaintsOf(rows, ById(expected), disk, |rows|)
    + MissingComplaints(rows, expected, |expected|)
  }

  /** `validateHashRows`. */
  method ValidateHashRows(rows: seq<HashRow>, expected: seq<Declared>, disk: Disk, errors0: Complaints)
    returns (errors: Complaints)
    ensures errors == errors0 + ValidateComplaints(rows, expected, disk)
  {
    errors := errors0;
    if |rows| != |expected| { errors := errors + [WrongCount]; }
    assert errors == errors0 + CountComplaints(rows, expected);
    Three(errors0, CountComplaints(rows, expected), MatchComplaintsOf(rows, ById(expected), disk, |rows|),
          MissingComplaints(rows, expected, |expected|));
    errors := MatchRows(rows, ById(expected), disk, errors);
    errors := ReportMissing(rows, expected, errors);
  }

  /** Its first loop. */
  method MatchRows(rows: seq<HashRow>, byId: map<Text, Declared>, disk: Disk, errors0: Complaints)
    returns (errors: Complaints)
    ensures errors == errors0 + MatchComplaintsOf(rows, byId, disk, |rows|)
  {
    errors := errors0;
    for i := 0 to |rows|
      invariant errors == errors0 + MatchComplaintsOf(rows, byId, disk, i)
    {
      Regroup(errors0, MatchComplaintsOf(rows, byId, disk, i), MatchComplaints(rows[i], byId, disk));
      errors := MatchHashRow(rows[i], byId, disk, errors);
    }
  }

  /** Its second loop. */
  method ReportMissing(rows: seq<HashRow>, expected: seq<Declared>, errors0: Complaints) returns (errors: Complaints)
    ensures errors == errors0 + MissingComplaints(rows, expected, |expected|)
  {
    errors := errors0;
    for j := 0 to |expected|
      invariant errors == errors0 + MissingComplaints(rows, expected, j)
    {
      Regroup(errors0, MissingComplaints(rows, expected, j), MissingOf(rows, expected[j]));
      if !HasRow(rows, expected[j].id) { errors := errors + [MissingDeclared(expected[j].id)]; }
    }
  }

  lemma {:induction false} Three<T>(a: seq<T>, b: seq<T>, c: seq<T>, d: seq<T>)
    ensures a + (b + c + d) == ((a + b) + c) + d
  {}

  /** The loop body of `validateHashRows`. */
  method MatchHashRow(row: HashRow, byId: map<Text, Declared>, disk: Disk, errors0: Complaints)
    returns (errors: Complaints)
    ensures errors == errors0 + MatchComplaints(row, byId, disk)
  {
    errors := errors0;
    if row.id !in byId { return errors + [UnknownId(row.id)]; }
    var declaration := byId[row.id];
    if row.path != declaration.path { errors := errors + [PathDiffers(row.id)]; }
    var resolved := disk.resolve(declaration.path);
    if resolved.None? || !disk.exists_(resolved.value) { return errors + [MissingOnDisk(row.id)]; }
    if IsDigest(row.sha256) && disk.digest(resolved.value) != row.sha256 {
      errors := errors + [DigestDiffers(row.id)];
    }
  }

  // ------------------------------------------------------- what is accepted

  /** An entry of three strings, the last a digest, and nothing else. */
  predicate GoodEntry(e: RowView) {
    e.isObject && e.unknown == [] && e.row.Some? && IsDigest(e.row.value.sha256)
  }

  /** The entry is an object of exactly these texts under `id`, `path` and `sha256`, the last a digest. */
  predicate EntryOf(entry: Json, row: HashRow) {
    && entry.Obj? && OnlyFields(entry.members, HASH_ROW_FIELDS) && IsDigest(row.sha256)
    && IsText(Field(entry.members, ID), row.id)
    && IsText(Field(entry.members, PATH), row.path)
    && IsText(Field(entry.members, SHA256), row.sha256)
  }

  /** An entry is good exactly when it is that of a row, and it gives this row. */
  lemma {:induction false} GoodEntryMeans(entry: Json, row: HashRow)
    ensures GoodEntry(ViewOf(entry)) && ViewOf(entry).row == Some(row) <==> EntryOf(entry, row)
  {}

  predicate AllGood(es: seq<RowView>) {
    forall i :: 0 <= i < |es| ==> GoodEntry(es[i])
  }

  lemma {:induction false} RowAccepted(e: RowView, seen: set<Text>)
    ensures RowComplaints(e, seen) == [] <==> GoodEntry(e) && e.row.value.id !in seen
  {}

  predicate GoodFirst(es: seq<RowView>, n: nat)
    requires n <= |es|
  {
    forall i :: 0 <= i < n ==> GoodEntry(es[i])
  }

  lemma {:induction false} EachGivesARow(es: seq<RowView>, n: nat)
    requires n <= |es| && GoodFirst(es, n)
    ensures |RowsOf(es, n)| == n
    ensures forall i :: 0 <= i < n ==> es[i].row == Some(RowsOf(es, n)[i])
  {
    if n > 0 { EachGivesARow(es, n - 1); }
  }

  lemma {:induction false} IdsStep(rows: seq<HashRow>, e: RowView)
    requires GoodEntry(e)
    ensures Ids(rows + OneRow(e)) == Ids(rows) + [e.row.value.id]
  {
    IdsAppend(rows, OneRow(e));
    assert Ids(OneRow(e)) == [e.row.value.id];
  }

  lemma {:induction false} NewIdCounts(rows: seq<HashRow>, e: RowView, all: seq<HashRow>)
    requires GoodEntry(e) && all == rows + OneRow(e)
    ensures AllCounted(Ids(all)) <==> AllCounted(Ids(rows)) && e.row.value.id !in SetOf(Ids(rows))
  {
    IdsStep(rows, e);
    CountedSnoc(Ids(rows), e.row.value.id);
  }

  lemma {:induction false} RowIsClean(e: RowView, rows: seq<HashRow>, all: seq<HashRow>, row: Complaints)
    requires all == rows + OneRow(e) && row == RowComplaints(e, SetOf(Ids(rows)))
    ensures row == [] && AllCounted(Ids(rows)) <==> GoodEntry(e) && AllCounted(Ids(all))
  {
    RowAccepted(e, SetOf(Ids(rows)));
    if GoodEntry(e) { NewIdCounts(rows, e, all); }
  }

  lemma {:induction false} RestIsClean(before: Complaints, row: Complaints, after: Complaints)
    requires after == before + row
    ensures after == [] <==> before == [] && row == []
  {}

  lemma {:induction false} RowsAccepted(es: seq<RowView>, n: nat, rows: seq<HashRow>, complaints: Complaints)
    requires n <= |es| && rows == RowsOf(es, n) && complaints == ParseComplaintsOf(es, n)
    ensures complaints == [] <==> GoodFirst(es, n) && AllCounted(Ids(rows))
  {
    if n > 0 {
      var (before, earlier) := (RowsOf(es, n - 1), ParseComplaintsOf(es, n - 1));
      var row := RowComplaints(es[n - 1], SetOf(Ids(before)));
      RowsAccepted(es, n - 1, before, earlier);
      RestIsClean(earlier, row, complaints);
      RowIsClean(es[n - 1], before, rows, row);
      GoodFirstStep(es, n);
    }
  }

  /** Parsing complains about nothing exactly when all entries are good and no id repeats. */
  lemma {:induction false} ParseAccepts(es: seq<RowView>, n: nat)
    requires n <= |es|
    ensures ParseComplaintsOf(es, n) == [] <==> GoodFirst(es, n) && AllCounted(Ids(RowsOf(es, n)))
  {
    RowsAccepted(es, n, RowsOf(es, n), ParseComplaintsOf(es, n));
  }

  lemma {:induction false} GoodFirstStep(es: seq<RowView>, n: nat)
    requires 0 < n <= |es|
    ensures GoodFirst(es, n) <==> GoodFirst(es, n - 1) && GoodEntry(es[n - 1])
  {}

  // ------------------------------------------------- rows against declarations

  predicate RowFits(row: HashRow, byId: map<Text, Declared>, disk: Disk) {
    && row.id in byId
    && row.path == byId[row.id].path
    && OnDisk(disk, row.path)
    && (IsDigest(row.sha256) ==> row.sha256 == DigestOf(disk, row.path))
  }

  lemma {:induction false} RowMatches(row: HashRow, byId: map<Text, Declared>, disk: Disk)
    ensures MatchComplaints(row, byId, disk) == [] <==> RowFits(row, byId, disk)
  {}

  lemma {:induction false} MatchAccepts(rows: seq<HashRow>, byId: map<Text, Declared>, disk: Disk, n: nat,
                                        cs: Complaints)
    requires n <= |rows| && cs == MatchComplaintsOf(rows, byId, disk, n)
    ensures cs == [] <==> forall i :: 0 <= i < n ==> RowFits(rows[i], byId, disk)
  {
    if n > 0 {
      var before := MatchComplaintsOf(rows, byId, disk, n - 1);
      MatchAccepts(rows, byId, disk, n - 1, before);
      RowMatches(rows[n - 1], byId, disk);
      RestIsClean(before, MatchComplaints(rows[n - 1], byId, disk), cs);
    }
  }

  predicate HaveRows(rows: seq<HashRow>, expected: seq<Declared>, n: nat)
    requires n <= |expected|
  {
    forall j :: 0 <= j < n ==> HasRow(rows, expected[j].id)
  }

  lemma {:induction false} HaveRowsStep(rows: seq<HashRow>, expected: seq<Declared>, m: nat, n: nat)
    requires n == m + 1 <= |expected|
    ensures HaveRows(rows, expected, n) <==> HaveRows(rows, expected, m) && HasRow(rows, expected[m].id)
  {}

  lemma {:induction false} MissingAccepts(rows: seq<HashRow>, expected: seq<Declared>, n: nat, cs: Complaints)
    requires n <= |expected| && cs == MissingComplaints(rows, expected, n)
    ensures cs == [] <==> HaveRows(rows, expected, n)
  {
    if n > 0 {
      var before := MissingComplaints(rows, expected, n - 1);
      MissingAccepts(rows, expected, n - 1, before);
      HaveRowsStep(rows, expected, n - 1, n);
      RestIsClean(before, MissingOf(rows, expected[n - 1]), cs);
    }
  }

  function DeclaredIds(expected: seq<Declared>): (r: seq<Text>)
    ensures |r| == |expected|
  {
    seq(|expected|, i requires 0 <= i < |expected| => expected[i].id)
  }

  predicate AllOnDisk(expected: seq<Declared>, disk: Disk) {
    forall i :: 0 <= i < |expected| ==> OnDisk(disk, expected[i].path)
  }

  /** The row that a declared file must have. */
  function RightRow(d: Declared, disk: Disk): HashRow
    requires OnDisk(disk, d.path)
  {
    HashRow(d.id, d.path, DigestOf(disk, d.path))
  }

  function RightRows(expected: seq<Declared>, disk: Disk): (r: seq<HashRow>)
    requires AllOnDisk(expected, disk)
    ensures |r| == |expected|
  {
    seq(|expected|, i requires 0 <= i < |expected| => RightRow(expected[i], disk))
  }

  /** Rows with distinct ids, as many as there are declarations, each of a declared id: then no declaration
      is without a row, and no declared id repeats. */
  lemma {:induction false} NoneMissing(rows: seq<HashRow>, expected: seq<Declared>)
    requires NoDup(Ids(rows)) && |rows| == |expected|
    requires forall i :: 0 <= i < |rows| ==> rows[i].id in ById(expected)
    ensures SetOf(Ids(rows)) == SetOf(DeclaredIds(expected)) && NoDup(DeclaredIds(expected))
    ensures forall j :: 0 <= j < |expected| ==> HasRow(rows, expected[j].id)
  {
    var have, want := SetOf(Ids(rows)), SetOf(DeclaredIds(expected));
    forall id | id in have ensures id in want {
      var i :| 0 <= i < |rows| && Ids(rows)[i] == id;
      var d := ById(expected)[id];
      var j :| 0 <= j < |expected| && expected[j] == d;
      assert DeclaredIds(expected)[j] == id;
    }
    Pigeonhole(Ids(rows));
    Pigeonhole(DeclaredIds(expected));
    SubsetOfSameSize(have, want);
    forall j | 0 <= j < |expected| ensures HasRow(rows, expected[j].id) {
      assert DeclaredIds(expected)[j] in have;
      var i :| 0 <= i < |rows| && Ids(rows)[i] == expected[j].id;
      assert rows[i].id == expected[j].id;
    }
  }

  lemma {:induction false} ValidateAccepts(rows: seq<HashRow>, expected: seq<Declared>, disk: Disk)
    ensures ValidateComplaints(rows, expected, disk) == [] <==>
              && |rows| == |expected|
              && (forall i :: 0 <= i < |rows| ==> RowFits(rows[i], ById(expected), disk))
              && (forall j :: 0 <= j < |expected| ==> HasRow(rows, expected[j].id))
  {
    MatchAccepts(rows, ById(expected), disk, |rows|, MatchComplaintsOf(rows, ById(expected), disk, |rows|));
    MissingAccepts(rows, expected, |expected|, MissingComplaints(rows, expected, |expected|));
  }

  /** The digest of any content is a digest. */
  ghost predicate RealDigests(disk: Disk) {
    forall p :: IsDigest(disk.digest(p))
  }

  lemma {:induction false} DistinctIdsDistinctRows(rows: seq<HashRow>)
    requires NoDup(Ids(rows))
    ensures NoDup(rows)
  {
    forall i, j | 0 <= i < j < |rows| ensures rows[i] != rows[j] {
      assert Ids(rows)[i] != Ids(rows)[j];
    }
  }

  lemma {:induction false} FittingRow(row: HashRow, expected: seq<Declared>, disk: Disk) returns (j: nat)
    requires RowFits(row, ById(expected), disk) && IsDigest(row.sha256)
    ensures j < |expected| && expected[j].id == row.id && OnDisk(disk, expected[j].path)
    ensures row == RightRow(expected[j], disk)
  {
    j :| 0 <= j < |expected| && expected[j] == ById(expected)[row.id];
  }

  lemma {:induction false} SameId(expected: seq<Declared>, i: nat, j: nat)
    requires NoDup(DeclaredIds(expected)) && i < |expected| && j < |expected| && expected[i].id == expected[j].id
    ensures i == j
  {
    assert DeclaredIds(expected)[i] == DeclaredIds(expected)[j];
  }

  /** A row that fits is the right row of the declaration with its id. */
  lemma {:induction false} FittingRowIs(row: HashRow, expected: seq<Declared>, disk: Disk, j: nat)
    requires NoDup(DeclaredIds(expected)) && j < |expected| && row.id == expected[j].id
    requires RowFits(row, ById(expected), disk) && IsDigest(row.sha256)
    ensures OnDisk(disk, expected[j].path) && row == RightRow(expected[j], disk)
  {
    var k := FittingRow(row, expected, disk);
    SameId(expected, j, k);
  }

  lemma {:induction false} FittingRowIsRight(row: HashRow, expected: seq<Declared>, disk: Disk)
    requires AllOnDisk(expected, disk) && RowFits(row, ById(expected), disk) && IsDigest(row.sha256)
    ensures row in RightRows(expected, disk)
  {
    var k := FittingRow(row, expected, disk);
    assert RightRows(expected, disk)[k] == row;
  }

  /** Fitting rows, one for each declaration, are a permutation of the right rows. */
  lemma {:induction false} FittingRowsAreRight(rows: seq<HashRow>, expected: seq<Declared>, disk: Disk)
    requires NoDup(Ids(rows)) && NoDup(DeclaredIds(expected))
    requires forall i :: 0 <= i < |rows| ==> RowFits(rows[i], ById(expected), disk) && IsDigest(rows[i].sha256)
    requires forall j :: 0 <= j < |expected| ==> HasRow(rows, expected[j].id)
    ensures AllOnDisk(expected, disk) && multiset(rows) == multiset(RightRows(expected, disk))
  {
    forall j | 0 <= j < |expected|
      ensures OnDisk(disk, expected[j].path) && RightRow(expected[j], disk) in rows
    {
      var k :| 0 <= k < |rows| && rows[k].id == expected[j].id;
      FittingRowIs(rows[k], expected, disk, j);
    }
    var right := RightRows(expected, disk);
    forall i | 0 <= i < |rows| ensures rows[i] in right {
      FittingRowIsRight(rows[i], expected, disk);
    }
    DistinctIdsDistinctRows(rows);
    assert Ids(right) == DeclaredIds(expected);
    DistinctIdsDistinctRows(right);
    SameMembers(rows, right);
  }

  lemma {:induction false} ByIdOfDistinct(expected: seq<Declared>, j: nat)
    requires j < |expected| && NoDup(DeclaredIds(expected))
    ensures expected[j].id in ById(expected) && ById(expected)[expected[j].id] == expected[j]
  {
    var d := ById(expected)[expected[j].id];
    var k :| 0 <= k < |expected| && expected[k] == d;
    SameId(expected, j, k);
  }

  /** A row among the right rows is the one of its declaration. */
  lemma {:induction false} RightRowOf(row: HashRow, expected: seq<Declared>, disk: Disk) returns (j: nat)
    requires NoDup(DeclaredIds(expected)) && AllOnDisk(expected, disk) && row in RightRows(expected, disk)
    ensures j < |expected| && row == RightRow(expected[j], disk) && RowFits(row, ById(expected), disk)
  {
    var right := RightRows(expected, disk);
    j :| 0 <= j < |right| && right[j] == row;
    ByIdOfDistinct(expected, j);
  }

  lemma {:induction false} RightRowsHaveDistinctIds(rows: seq<HashRow>, expected: seq<Declared>, disk: Disk)
    requires NoDup(DeclaredIds(expected)) && AllOnDisk(expected, disk)
    requires NoDup(rows) && forall row :: row in rows ==> row in RightRows(expected, disk)
    ensures NoDup(Ids(rows))
  {
    forall i, j | 0 <= i < j < |rows| ensures Ids(rows)[i] != Ids(rows)[j] {
      var k := RightRowOf(rows[i], expected, disk);
      var l := RightRowOf(rows[j], expected, disk);
      if expected[k].id == expected[l].id { SameId(expected, k, l); }
    }
  }

  lemma {:induction false} RightRowsCover(rows: seq<HashRow>, expected: seq<Declared>, disk: Disk, j: nat)
    requires AllOnDisk(expected, disk) && j < |expected|
    requires forall row :: row in RightRows(expected, disk) ==> row in rows
    ensures HasRow(rows, expected[j].id)
  {
    var right := RightRows(expected, disk);
    assert right[j] in right;
    var i :| 0 <= i < |rows| && rows[i] == right[j];
  }

  /** A permutation of the right rows fits. */
  lemma {:induction false} RightRowsFit(rows: seq<HashRow>, expected: seq<Declared>, disk: Disk)
    requires NoDup(DeclaredIds(expected)) && AllOnDisk(expected, disk)
    requires multiset(rows) == multiset(RightRows(expected, disk))
    ensures NoDup(Ids(rows)) && |rows| == |expected|
    ensures forall i :: 0 <= i < |rows| ==> RowFits(rows[i], ById(expected), disk)
    ensures forall j :: 0 <= j < |expected| ==> HasRow(rows, expected[j].id)
  {
    var right := RightRows(expected, disk);
    assert Ids(right) == DeclaredIds(expected);
    DistinctIdsDistinctRows(right);
    PermutationKeepsNoDup(rows, right);
    RightRowsHaveDistinctIds(rows, expected, disk);
    forall i | 0 <= i < |rows| ensures RowFits(rows[i], ById(expected), disk) {
      var k := RightRowOf(rows[i], expected, disk);
    }
    forall j | 0 <= j < |expected| ensures HasRow(rows, expected[j].id) {
      RightRowsCover(rows, expected, disk, j);
    }
  }

  /** The entries of an array, one for each declared file and in any order: three texts, which are the declared id
      and path and the digest of the file, each file inside the root and present. */
  ghost predicate ExactEntries(items: seq<Json>, expected: seq<Declared>, disk: Disk) {
    && NoDup(DeclaredIds(expected)) && AllOnDisk(expected, disk)
    && |items| == |expected|
    && forall j :: 0 <= j < |expected| ==> HasEntry(items, RightRow(expected[j], disk))
  }

  predicate HasEntry(items: seq<Json>, row: HashRow) {
    exists i :: 0 <= i < |items| && EntryOf(items[i], row)
  }

  /** The parsed rows, told by the entries. */
  lemma {:induction false} RowsAreEntries(items: seq<Json>, rows: seq<HashRow>)
    requires rows == ParsedRows(ViewsOf(items)) && AllGood(ViewsOf(items))
    ensures |rows| == |items|
    ensures forall i :: 0 <= i < |items| ==> EntryOf(items[i], rows[i])
  {
    var es := ViewsOf(items);
    EachGivesARow(es, |es|);
    forall i | 0 <= i < |items| ensures EntryOf(items[i], rows[i]) {
      assert es[i] == ViewOf(items[i]);
      GoodEntryMeans(items[i], rows[i]);
    }
  }

  /** One entry is that of one row. */
  lemma {:induction false} EntryIsUnique(a: Json, r: HashRow, b: Json, q: HashRow)
    requires EntryOf(a, r) && EntryOf(b, q)
    ensures r != q ==> a != b
  {}

  /** Every entry is at one of the places. */
  predicate Covers(at: seq<nat>, n: nat) {
    forall i: nat :: i < n ==> At(at, i)
  }

  predicate At(at: seq<nat>, i: nat) {
    exists j :: 0 <= j < |at| && at[j] == i
  }

  /** For each declaration the place of its entry: none is left over. */
  lemma {:induction false} PlacesOfEntries(items: seq<Json>, right: seq<HashRow>) returns (at: seq<nat>)
    requires |items| == |right| && NoDup(right) && forall j :: 0 <= j < |right| ==> HasEntry(items, right[j])
    ensures |at| == |right| && Covers(at, |items|)
    ensures forall j :: 0 <= j < |at| ==> at[j] < |items| && EntryOf(items[at[j]], right[j])
  {
    at := seq(|right|, j requires 0 <= j < |right| => var i: nat :| i < |items| && EntryOf(items[i], right[j]); i);
    forall i, j | 0 <= i < j < |at| ensures at[i] != at[j] {
      EntryIsUnique(items[at[i]], right[i], items[at[j]], right[j]);
    }
    Pigeonhole(at);
    SubsetOfSameSize(SetOf(at), UpTo(|items|));
    forall i: nat | i < |items| ensures At(at, i) { assert i in SetOf(at); }
  }

  lemma {:induction false} EntriesAreGood(items: seq<Json>, right: seq<HashRow>, at: seq<nat>)
    requires |at| == |right| && Covers(at, |items|)
    requires forall j :: 0 <= j < |at| ==> at[j] < |items| && EntryOf(items[at[j]], right[j])
    ensures AllGood(ViewsOf(items))
  {
    forall i | 0 <= i < |items| ensures GoodEntry(ViewsOf(items)[i]) {
      assert At(at, i);
      var j :| 0 <= j < |at| && at[j] == i;
      GoodEntryMeans(items[i], right[j]);
    }
  }

  /** The rows at the places of the right rows are a permutation of them. */
  lemma {:induction false} PermutedRows(rows: seq<HashRow>, right: seq<HashRow>, at: seq<nat>)
    requires |at| == |right| && NoDup(right) && Covers(at, |rows|)
    requires forall j :: 0 <= j < |at| ==> at[j] < |rows| && rows[at[j]] == right[j]
    ensures multiset(rows) == multiset(right)
  {
    forall i, k | 0 <= i < k < |rows| ensures rows[i] != rows[k] {
      assert At(at, i) && At(at, k);
      var p :| 0 <= p < |at| && at[p] == i;
      var q :| 0 <= q < |at| && at[q] == k;
      assert right[p] != right[q];
    }
    forall r | r in rows ensures r in right {
      var i :| 0 <= i < |rows| && rows[i] == r;
      assert At(at, i);
      var j :| 0 <= j < |at| && at[j] == i;
    }
    forall r | r in right ensures r in rows {
      var j :| 0 <= j < |right| && right[j] == r;
      assert rows[at[j]] == r;
    }
    SameMembers(rows, right);
  }

  lemma {:induction false} RightRowsAreDistinct(expected: seq<Declared>, disk: Disk)
    requires NoDup(DeclaredIds(expected)) && AllOnDisk(expected, disk)
    ensures NoDup(RightRows(expected, disk))
  {
    assert Ids(RightRows(expected, disk)) == DeclaredIds(expected);
    DistinctIdsDistinctRows(RightRows(expected, disk));
  }

  /** Good entries whose rows are a permutation of the right rows are the entries that the declarations ask for. */
  lemma {:induction false} EntriesExactly(items: seq<Json>, expected: seq<Declared>, disk: Disk)
    requires NoDup(DeclaredIds(expected)) && AllOnDisk(expected, disk)
    ensures AllGood(ViewsOf(items)) && multiset(ParsedRows(ViewsOf(items))) == multiset(RightRows(expected, disk))
            <==> ExactEntries(items, expected, disk)
  {
    var (rows, right) := (ParsedRows(ViewsOf(items)), RightRows(expected, disk));
    RightRowsAreDistinct(expected, disk);
    if AllGood(ViewsOf(items)) && multiset(rows) == multiset(right) {
      RowsAreEntries(items, rows);
      PermutationKeepsNoDup(rows, right);
      forall j | 0 <= j < |expected| ensures HasEntry(items, RightRow(expected[j], disk)) {
        assert right[j] in rows;
        var i :| 0 <= i < |rows| && rows[i] == right[j];
        assert EntryOf(items[i], RightRow(expected[j], disk));
      }
    }
    if ExactEntries(items, expected, disk) {
      forall j | 0 <= j < |right| ensures HasEntry(items, right[j]) { assert right[j] == RightRow(expected[j], disk); }
      var at := PlacesOfEntries(items, right);
      EntriesAreGood(items, right, at);
      RowsAreEntries(items, rows);
      forall j | 0 <= j < |at| ensures rows[at[j]] == right[j] {
        EntryIsUnique(items[at[j]], rows[at[j]], items[at[j]], right[j]);
      }
      PermutedRows(rows, right, at);
    }
  }

  /** Both calls complain about nothing exactly when the rows of good entries are a permutation of the right ones. */
  lemma {:induction false} RightRowsAccepted(items: seq<Json>, expected: seq<Declared>, disk: Disk)
    requires RealDigests(disk)
    ensures var es := ViewsOf(items);
            ParseComplaints(es) == [] && ValidateComplaints(ParsedRows(es), expected, disk) == [] <==>
              && AllGood(es)
              && NoDup(DeclaredIds(expected))
              && AllOnDisk(expected, disk)
              && multiset(ParsedRows(es)) == multiset(RightRows(expected, disk))
  {
    var es := ViewsOf(items);
    var rows := ParsedRows(es);
    ParseAccepts(es, |es|);
    Pigeonhole(Ids(rows));
    ValidateAccepts(rows, expected, disk);
    if ParseComplaints(es) == [] && ValidateComplaints(rows, expected, disk) == [] {
      EachGivesARow(es, |es|);
      NoneMissing(rows, expected);
      FittingRowsAreRight(rows, expected, disk);
    }
    if NoDup(DeclaredIds(expected)) && AllOnDisk(expected, disk)
       && multiset(rows) == multiset(RightRows(expected, disk))
    {
      RightRowsFit(rows, expected, disk);
    }
  }

  /** A receipt's entries are accepted exactly when there is one for each declared file, and no other: with the
      declared id and path and the digest of the file on disk. */
  lemma {:induction false} RowsAcceptedExactly(items: seq<Json>, expected: seq<Declared>, disk: Disk)
    requires RealDigests(disk)
    ensures var es := ViewsOf(items);
            ParseComplaints(es) == [] && ValidateComplaints(ParsedRows(es), expected, disk) == []
            <==> ExactEntries(items, expected, disk)
  {
    RightRowsAccepted(items, expected, disk);
    if NoDup(DeclaredIds(expected)) && AllOnDisk(expected, disk) { EntriesExactly(items, expected, disk); }
  }

  /** What a receipt's rows must be. */
  ghost predicate ExactRows(value: Json, expected: seq<Declared>, disk: Disk) {
    value.Arr? && ExactEntries(value.items, expected, disk)
  }

  /** Both calls, as `validateBoundFiles` makes them for each kind of file. */
  method ValidateBoundRows(value: Json, expected: seq<Declared>, disk: Disk, errors0: Complaints)
    returns (errors: Complaints)
    requires RealDigests(disk)
    ensures errors0 <= errors
    ensures errors == errors0 <==> ExactRows(value, expected, disk)
  {
    var rows;
    rows, errors := ParseHashRows(value, errors0);
    ghost var parsed := errors;
    errors := ValidateHashRows(rows, expected, disk, errors);
    if value.Arr? { RowsAcceptedExactly(value.items, expected, disk); }
    assert |errors| == |parsed| + |ValidateComplaints(rows, expected, disk)|;
  }
}
