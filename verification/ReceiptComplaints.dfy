/** Which complaints the receipt validator (qualification/v1/validate.ts) makes: for every kind the exact condition,
    in terms of the receipt's entries and rows. */
module ReceiptComplaints {
  import opened Wrappers
  import opened Sequences
  import opened JsonText
  import opened Receipt
  import opened ReceiptCases

  // ------------------------------------------------------------ unknown fields

  lemma {:induction false} InBoth(a: Complaints, b: Complaints, c: Complaint)
    ensures c in a + b <==> c in a || c in b
  {}

  predicate HasMember(members: seq<Entry<Json>>, key: Text) {
    exists i :: 0 <= i < |members| && members[i].key == key
  }

  lemma {:induction false} UnknownUpTo(members: seq<Entry<Json>>, allowed: set<Text>, n: nat, c: Complaint)
    requires n <= |members|
    ensures c in UnknownAmong(members, allowed, n)
            <==> c.UnknownField? && c.key !in allowed && exists i :: 0 <= i < n && members[i].key == c.key
  {
    if n > 0 { UnknownUpTo(members, allowed, n - 1, c); }
  }

  /** Unknown fields are complained about one by one, and nothing else is. */
  lemma {:induction false} UnknownExactly(members: seq<Entry<Json>>, allowed: set<Text>, c: Complaint)
    ensures c in UnknownFields(members, allowed)
            <==> c.UnknownField? && c.key !in allowed && HasMember(members, c.key)
  {
    UnknownUpTo(members, allowed, |members|, c);
  }

  // ------------------------------------------------------------------ parsing

  predicate TextAt(members: seq<Entry<Json>>, key: Text) {
    Field(members, key).Some? && Field(members, key).value.Str?
  }

  /** The three texts are there. */
  predicate GivesRow(entry: Json) {
    entry.Obj? && TextAt(entry.members, ID) && TextAt(entry.members, PATH) && TextAt(entry.members, SHA256)
  }

  function RowOf(entry: Json): HashRow
    requires GivesRow(entry)
  {
    HashRow(Field(entry.members, ID).value.s, Field(entry.members, PATH).value.s, Field(entry.members, SHA256).value.s)
  }

  predicate ViewHasId(e: RowView, id: Text) { e.isObject && e.row.Some? && e.row.value.id == id }

  predicate EntryHasId(entry: Json, id: Text) { GivesRow(entry) && RowOf(entry).id == id }

  lemma {:induction false} IdOfView(entry: Json, id: Text)
    ensures ViewHasId(ViewOf(entry), id) <==> EntryHasId(entry, id)
    ensures GivesRow(entry) ==> ViewOf(entry).row == Some(RowOf(entry))
  {}

  lemma {:induction false} InIds(rows: seq<HashRow>, more: seq<HashRow>, id: Text)
    requires |more| <= 1
    ensures id in SetOf(Ids(rows + more)) <==> id in SetOf(Ids(rows)) || (more != [] && more[0].id == id)
  {
    IdsAppend(rows, more);
    assert more != [] ==> more == [more[0]] && Ids(more) == [more[0].id];
  }

  /** The ids seen before an entry are those of the entries before it. */
  lemma {:induction false} IdsSeen(es: seq<RowView>, n: nat, rows: seq<HashRow>, id: Text)
    requires n <= |es| && rows == RowsOf(es, n)
    ensures id in SetOf(Ids(rows)) <==> exists i :: 0 <= i < n && ViewHasId(es[i], id)
  {
    if n > 0 {
      IdsSeen(es, n - 1, RowsOf(es, n - 1), id);
      InIds(RowsOf(es, n - 1), OneRow(es[n - 1]), id);
    }
  }

  /** What an entry is complained about, `seen` being the ids before it. */
  lemma {:induction false} EntryExactly(entry: Json, seen: set<Text>, c: Complaint)
    ensures c in RowComplaints(ViewOf(entry), seen) <==>
              match c
              case EntryNotAnObject => !entry.Obj?
              case UnknownField(key) => entry.Obj? && key !in HASH_ROW_FIELDS && HasMember(entry.members, key)
              case FieldsRequired => entry.Obj? && !GivesRow(entry)
              case DuplicateId(id) => EntryHasId(entry, id) && id in seen
              case BadDigest(id) => EntryHasId(entry, id) && !IsDigest(RowOf(entry).sha256)
              case _ => false
  {
    if entry.Obj? { UnknownExactly(entry.members, HASH_ROW_FIELDS, c); }
  }

  ghost predicate Draws(es: seq<RowView>, i: nat, c: Complaint)
    requires i < |es|
  {
    c in RowComplaints(es[i], SetOf(Ids(RowsOf(es, i))))
  }

  lemma {:induction false} ParseUpTo(es: seq<RowView>, n: nat, cs: Complaints, c: Complaint)
    requires n <= |es| && cs == ParseComplaintsOf(es, n)
    ensures c in cs <==> exists i: nat :: i < n && Draws(es, i, c)
  {
    if n > 0 {
      var m: nat := n - 1;
      var before := ParseComplaintsOf(es, m);
      ParseUpTo(es, m, before, c);
      ParseLast(es, m, n, before, cs, c);
      DrawnUpTo(es, m, n, c, c in before);
    }
  }

  lemma {:induction false} DrawnUpTo(es: seq<RowView>, m: nat, n: nat, c: Complaint, before: bool)
    requires n == m + 1 <= |es| && (before <==> exists i: nat :: i < m && Draws(es, i, c))
    ensures before || Draws(es, m, c) <==> exists i: nat :: i < n && Draws(es, i, c)
  {}

  lemma {:induction false} ParseLast(es: seq<RowView>, m: nat, n: nat, before: Complaints, cs: Complaints, c: Complaint)
    requires n == m + 1 <= |es| && before == ParseComplaintsOf(es, m) && cs == ParseComplaintsOf(es, n)
    ensures c in cs <==> c in before || Draws(es, m, c)
  {
    InBoth(before, RowComplaints(es[m], SetOf(Ids(RowsOf(es, m)))), c);
  }

  /** The complaint about entry `i` of an array, by what the entries hold. */
  ghost predicate EntryDraws(items: seq<Json>, i: nat, c: Complaint)
    requires i < |items|
  {
    match c
    case EntryNotAnObject => !items[i].Obj?
    case UnknownField(key) => items[i].Obj? && key !in HASH_ROW_FIELDS && HasMember(items[i].members, key)
    case FieldsRequired => items[i].Obj? && !GivesRow(items[i])
    case DuplicateId(id) => EntryHasId(items[i], id) && exists j :: 0 <= j < i && EntryHasId(items[j], id)
    case BadDigest(id) => EntryHasId(items[i], id) && !IsDigest(RowOf(items[i]).sha256)
    case _ => false
  }

  lemma {:induction false} SeenEarlier(items: seq<Json>, i: nat, seen: set<Text>, id: Text)
    requires i < |items| && seen == SetOf(Ids(RowsOf(ViewsOf(items), i)))
    ensures id in seen <==> exists j :: 0 <= j < i && EntryHasId(items[j], id)
  {
    var es := ViewsOf(items);
    IdsSeen(es, i, RowsOf(es, i), id);
    forall j | 0 <= j < i ensures ViewHasId(es[j], id) <==> EntryHasId(items[j], id) { IdOfView(items[j], id); }
  }

  lemma {:induction false} EntryDrawsIt(items: seq<Json>, i: nat, c: Complaint)
    requires i < |items|
    ensures Draws(ViewsOf(items), i, c) <==> EntryDraws(items, i, c)
  {
    var seen := SetOf(Ids(RowsOf(ViewsOf(items), i)));
    EntryExactly(items[i], seen, c);
    if c.DuplicateId? { SeenEarlier(items, i, seen, c.id); }
  }

  /** Parsing complains about an entry that is no object, an unknown field, a missing text, a repeated id and a bad
      digest, each exactly when there is one, and about nothing else. */
  lemma {:induction false} ParseExactly(items: seq<Json>, c: Complaint)
    ensures c in ParseComplaints(ViewsOf(items)) <==> exists i: nat :: i < |items| && EntryDraws(items, i, c)
  {
    var es := ViewsOf(items);
    ParseUpTo(es, |es|, ParseComplaints(es), c);
    forall i: nat | i < |items| ensures Draws(es, i, c) <==> EntryDraws(items, i, c) { EntryDrawsIt(items, i, c); }
  }

  // ------------------------------------------------------------ rows and files

  lemma {:induction false} MatchUpTo(rows: seq<HashRow>, byId: map<Text, Declared>, disk: Disk, n: nat, c: Complaint)
    requires n <= |rows|
    ensures c in MatchComplaintsOf(rows, byId, disk, n)
            <==> exists i :: 0 <= i < n && c in MatchComplaints(rows[i], byId, disk)
  {
    if n > 0 { MatchUpTo(rows, byId, disk, n - 1, c); }
  }

  lemma {:induction false} MissingUpTo(rows: seq<HashRow>, expected: seq<Declared>, n: nat, c: Complaint)
    requires n <= |expected|
    ensures c in MissingComplaints(rows, expected, n)
            <==> c.MissingDeclared? && !HasRow(rows, c.id) && exists j :: 0 <= j < n && expected[j].id == c.id
  {
    if n > 0 { MissingUpTo(rows, expected, n - 1, c); }
  }

  /** The complaint about a row. */
  predicate RowDraws(row: HashRow, byId: map<Text, Declared>, disk: Disk, c: Complaint) {
    match c
    case UnknownId(id) => row.id == id && id !in byId
    case PathDiffers(id) => row.id == id && id in byId && row.path != byId[id].path
    case MissingOnDisk(id) => row.id == id && id in byId && !OnDisk(disk, byId[id].path)
    case DigestDiffers(id) =>
      row.id == id && id in byId && OnDisk(disk, byId[id].path)
      && IsDigest(row.sha256) && DigestOf(disk, byId[id].path) != row.sha256
    case _ => false
  }

  lemma {:induction false} RowExactly(row: HashRow, byId: map<Text, Declared>, disk: Disk, c: Complaint)
    ensures c in MatchComplaints(row, byId, disk) <==> RowDraws(row, byId, disk, c)
  {}

  /** Matching complains about a wrong number of rows, about rows as above, and about declarations without a row, each
      exactly when there is one, and about nothing else. */
  lemma {:induction false} MatchExactly(rows: seq<HashRow>, expected: seq<Declared>, disk: Disk, c: Complaint)
    ensures c in ValidateComplaints(rows, expected, disk) <==>
              match c
              case WrongCount => |rows| != |expected|
              case MissingDeclared(id) => !HasRow(rows, id) && exists j :: 0 <= j < |expected| && expected[j].id == id
              case _ => exists i :: 0 <= i < |rows| && RowDraws(rows[i], ById(expected), disk, c)
  {
    MatchUpTo(rows, ById(expected), disk, |rows|, c);
    MissingUpTo(rows, expected, |expected|, c);
    forall i | 0 <= i < |rows|
      ensures c in MatchComplaints(rows[i], ById(expected), disk) <==> RowDraws(rows[i], ById(expected), disk, c)
    {
      RowExactly(rows[i], ById(expected), disk, c);
    }
  }

  // -------------------------------------------------------------------- cases

  predicate HasEvidence(m: seq<Entry<Json>>) {
    Field(m, EVIDENCE).Some? && Field(m, EVIDENCE).value.Obj?
  }

  /** The complaint about an entry of a case list with the members `m` and the id `id`, whose case is `k`. */
  ghost predicate KnownDraws(m: seq<Entry<Json>>, k: Case, c: Complaint) {
    var evidence := Field(m, EVIDENCE);
    var (status, observed) := (Field(m, STATUS), Field(m, OBSERVED_CODE));
    var runs := k.required != MustStayUnsatisfied;
    var passed := runs && IsText(status, Ascii("passed"));
    match c
    case CommandDiffers(_) => !IsText(Field(m, COMMAND), k.command)
    case ExpectedCodeDiffers(_) => !IsText(Field(m, EXPECTED_CODE), k.expectedCode)
    case EvidenceRequired(_) => !HasEvidence(m)
    case UnknownField(key) =>
      HasEvidence(m) && key !in CASE_EVIDENCE_FIELDS && HasMember(evidence.value.members, key)
    case MustRemainUnsatisfied(_) =>
      !runs && !(IsText(status, Ascii("unsatisfied")) && IsText(observed, k.expectedCode))
    case NotExecuted(_) => runs && IsText(status, Ascii("expected"))
    case DidNotPass(_) => runs && !IsText(status, Ascii("expected")) && !IsText(status, Ascii("passed"))
    case ObservedCodeDiffers(_) => passed && !IsText(observed, k.expectedCode)
    case NetworkRequests(_) => passed && HasEvidence(m) && !IsZero(Field(evidence.value.members, NETWORK))
    case PrivateMatches(_) => passed && HasEvidence(m) && !IsZero(Field(evidence.value.members, PRIVATE))
    case SafetyFailures(_) => passed && HasEvidence(m) && Field(evidence.value.members, SAFETY) != Some(Arr([]))
    case _ => false
  }

  /** Complaints about a known case carry its id. */
  predicate OfCase(c: Complaint, id: Text) {
    match c
    case CommandDiffers(i) => i == id
    case ExpectedCodeDiffers(i) => i == id
    case EvidenceRequired(i) => i == id
    case MustRemainUnsatisfied(i) => i == id
    case NotExecuted(i) => i == id
    case DidNotPass(i) => i == id
    case ObservedCodeDiffers(i) => i == id
    case NetworkRequests(i) => i == id
    case PrivateMatches(i) => i == id
    case SafetyFailures(i) => i == id
    case UnknownField(_) => true
    case _ => false
  }

  lemma {:induction false} EvidenceExactly(members: seq<Entry<Json>>, id: Text, c: Complaint)
    ensures var e := EvidenceViewOf(Some(Obj(members))).value;
            && (c in e.unknown <==> c.UnknownField? && c.key !in CASE_EVIDENCE_FIELDS && HasMember(members, c.key))
            && (c in EvidenceComplaints(e, id) <==>
                  || (c == NetworkRequests(id) && !IsZero(Field(members, NETWORK)))
                  || (c == PrivateMatches(id) && !IsZero(Field(members, PRIVATE)))
                  || (c == SafetyFailures(id) && Field(members, SAFETY) != Some(Arr([]))))
  {
    UnknownExactly(members, CASE_EVIDENCE_FIELDS, c);
  }

  /** The complaints about the status, by the view of an entry. */
  lemma {:induction false} StatusByView(v: CaseView, k: Case, c: Complaint)
    requires v.CaseView?
    ensures c in StatusComplaints(v, k) <==>
              if k.required == MustStayUnsatisfied then
                c == MustRemainUnsatisfied(v.id) && !(v.status == Unsatisfied && IsText(v.observedCode, k.expectedCode))
              else if v.status == Expected then c == NotExecuted(v.id)
              else if v.status != Passed then c == DidNotPass(v.id)
              else
                || (c == ObservedCodeDiffers(v.id) && !IsText(v.observedCode, k.expectedCode))
                || (v.evidence.Some? && c in EvidenceComplaints(v.evidence.value, v.id))
  {}

  /** Complaints that the status of an entry can draw. */
  predicate AboutStatus(c: Complaint) {
    !c.CommandDiffers? && !c.ExpectedCodeDiffers? && !c.EvidenceRequired? && !c.UnknownField?
  }

  /** The complaints about a case that is said to have passed. */
  predicate PassedDraws(m: seq<Entry<Json>>, k: Case, id: Text, c: Complaint) {
    || (c == ObservedCodeDiffers(id) && !IsText(Field(m, OBSERVED_CODE), k.expectedCode))
    || (HasEvidence(m) &&
        var e := Field(m, EVIDENCE).value.members;
        || (c == NetworkRequests(id) && !IsZero(Field(e, NETWORK)))
        || (c == PrivateMatches(id) && !IsZero(Field(e, PRIVATE)))
        || (c == SafetyFailures(id) && Field(e, SAFETY) != Some(Arr([]))))
  }

  lemma {:induction false} PassedByEntry(entry: Json, k: Case, c: Complaint)
    requires entry.Obj? && k.required != MustStayUnsatisfied && IsText(Field(entry.members, STATUS), Ascii("passed"))
    ensures c in StatusComplaints(CaseViewOf(entry), k) <==> PassedDraws(entry.members, k, EntryId(entry), c)
  {
    var m := entry.members;
    StatusMeans(Field(m, STATUS));
    StatusByView(CaseViewOf(entry), k, c);
    if HasEvidence(m) { EvidenceExactly(Field(m, EVIDENCE).value.members, EntryId(entry), c); }
  }

  lemma {:induction false} PassedExactly(entry: Json, k: Case, c: Complaint)
    requires entry.Obj? && k.required != MustStayUnsatisfied && IsText(Field(entry.members, STATUS), Ascii("passed"))
    ensures c in StatusComplaints(CaseViewOf(entry), k) <==>
              OfCase(c, EntryId(entry)) && KnownDraws(entry.members, k, c) && AboutStatus(c)
  {
    PassedByEntry(entry, k, c);
    PassedIsKnown(entry.members, k, EntryId(entry), c);
  }

  lemma {:induction false} PassedIsKnown(m: seq<Entry<Json>>, k: Case, id: Text, c: Complaint)
    requires k.required != MustStayUnsatisfied && IsText(Field(m, STATUS), Ascii("passed"))
    ensures PassedDraws(m, k, id, c) <==> OfCase(c, id) && KnownDraws(m, k, c) && AboutStatus(c)
  {
    StatusMeans(Field(m, STATUS));
  }

  lemma {:induction false} NotPassedExactly(entry: Json, k: Case, c: Complaint)
    requires entry.Obj?
    requires k.required == MustStayUnsatisfied || !IsText(Field(entry.members, STATUS), Ascii("passed"))
    ensures c in StatusComplaints(CaseViewOf(entry), k) <==>
              OfCase(c, EntryId(entry)) && KnownDraws(entry.members, k, c) && AboutStatus(c)
  {
    StatusMeans(Field(entry.members, STATUS));
    StatusByView(CaseViewOf(entry), k, c);
  }

  lemma {:induction false} StatusExactly(entry: Json, k: Case, c: Complaint)
    requires entry.Obj?
    ensures c in StatusComplaints(CaseViewOf(entry), k) <==>
              OfCase(c, EntryId(entry)) && KnownDraws(entry.members, k, c) && AboutStatus(c)
  {
    if k.required != MustStayUnsatisfied && IsText(Field(entry.members, STATUS), Ascii("passed")) {
      PassedExactly(entry, k, c);
    } else {
      NotPassedExactly(entry, k, c);
    }
  }

  lemma {:induction false} KnownByView(v: CaseView, k: Case, c: Complaint)
    requires v.CaseView?
    ensures c in KnownComplaints(v, k) <==>
              || (c == CommandDiffers(v.id) && !IsText(v.command, k.command))
              || (c == ExpectedCodeDiffers(v.id) && !IsText(v.expectedCode, k.expectedCode))
              || (match v.evidence case None => c == EvidenceRequired(v.id) case Some(e) => c in e.unknown)
              || c in StatusComplaints(v, k)
  {
    var command := When(!IsText(v.command, k.command), CommandDiffers(v.id));
    var code := When(!IsText(v.expectedCode, k.expectedCode), ExpectedCodeDiffers(v.id));
    var evidence := match v.evidence case None => [EvidenceRequired(v.id)] case Some(e) => e.unknown;
    InBoth(command, code, c);
    InBoth(command + code, evidence, c);
    InBoth(command + code + evidence, StatusComplaints(v, k), c);
  }

  lemma {:induction false} KnownExactly(entry: Json, k: Case, c: Complaint)
    requires entry.Obj?
    ensures c in KnownComplaints(CaseViewOf(entry), k) <==>
              OfCase(c, EntryId(entry)) && KnownDraws(entry.members, k, c)
  {
    StatusExactly(entry, k, c);
    KnownByView(CaseViewOf(entry), k, c);
    if HasEvidence(entry.members) {
      EvidenceExactly(Field(entry.members, EVIDENCE).value.members, EntryId(entry), c);
    }
  }

  /** The complaint about an entry of a case list; `seen` are the ids before it. */
  ghost predicate CaseDraws(entry: Json, seen: set<Text>, byId: map<Text, Case>, c: Complaint) {
    if !entry.Obj? then c == EntryNotAnObject
    else
      var id := EntryId(entry);
      || (c.UnknownField? && c.key !in CASE_FIELDS && HasMember(entry.members, c.key))
      || (c == DuplicateId(id) && id in seen)
      || (c == UnknownId(id) && id !in byId)
      || (id in byId && OfCase(c, id) && KnownDraws(entry.members, byId[id], c))
  }

  /** What is complained about in an entry of a case list, for every kind of complaint. */
  lemma {:induction false} CaseExactly(entry: Json, seen: set<Text>, byId: map<Text, Case>, c: Complaint)
    ensures c in CaseComplaints(CaseViewOf(entry), seen, byId) <==> CaseDraws(entry, seen, byId, c)
  {
    if entry.Obj? {
      UnknownExactly(entry.members, CASE_FIELDS, c);
      if EntryId(entry) in byId { KnownExactly(entry, byId[EntryId(entry)], c); }
    }
  }

  predicate ViewDraws(vs: seq<CaseView>, byId: map<Text, Case>, i: nat, c: Complaint)
    requires i < |vs|
  {
    c in CaseComplaints(vs[i], SeenIds(vs, i), byId)
  }

  lemma {:induction false} CasesUpTo(vs: seq<CaseView>, byId: map<Text, Case>, n: nat, cs: Complaints, c: Complaint)
    requires n <= |vs| && cs == CasesComplaints(vs, byId, n)
    ensures c in cs <==> exists i: nat :: i < n && ViewDraws(vs, byId, i, c)
  {
    if n > 0 {
      var m: nat := n - 1;
      var before := CasesComplaints(vs, byId, m);
      CasesUpTo(vs, byId, m, before, c);
      CasesLast(vs, byId, m, n, before, cs, c);
      CasesDrawnUpTo(vs, byId, m, n, c, c in before);
    }
  }

  lemma {:induction false} CasesDrawnUpTo(vs: seq<CaseView>, byId: map<Text, Case>, m: nat, n: nat, c: Complaint,
                                          before: bool)
    requires n == m + 1 <= |vs| && (before <==> exists i: nat :: i < m && ViewDraws(vs, byId, i, c))
    ensures before || ViewDraws(vs, byId, m, c) <==> exists i: nat :: i < n && ViewDraws(vs, byId, i, c)
  {}

  lemma {:induction false} CasesLast(vs: seq<CaseView>, byId: map<Text, Case>, m: nat, n: nat, before: Complaints,
                                     cs: Complaints, c: Complaint)
    requires n == m + 1 <= |vs| && before == CasesComplaints(vs, byId, m) && cs == CasesComplaints(vs, byId, n)
    ensures c in cs <==> c in before || ViewDraws(vs, byId, m, c)
  {
    InBoth(before, CaseComplaints(vs[m], SeenIds(vs, m), byId), c);
  }

  lemma {:induction false} IdsOfCases(items: seq<Json>, n: nat, seen: set<Text>, id: Text)
    requires n <= |items| && seen == SeenIds(CaseViewsOf(items), n)
    ensures id in seen <==> exists j :: 0 <= j < n && CaseHasId(items[j], id)
  {
    if n > 0 {
      var m: nat := n - 1;
      var before := SeenIds(CaseViewsOf(items), m);
      IdsOfCases(items, m, before, id);
      assert seen == before + IdsOfOne(CaseViewsOf(items)[m]);
      assert CaseViewsOf(items)[m] == CaseViewOf(items[m]);
      assert id in IdsOfOne(CaseViewOf(items[m])) <==> CaseHasId(items[m], id);
    }
  }

  predicate CaseHasId(entry: Json, id: Text) { entry.Obj? && EntryId(entry) == id }

  lemma {:induction false} MissingCasesExactly(seen: set<Text>, contract: seq<Case>, n: nat, c: Complaint)
    requires n <= |contract|
    ensures c in MissingCases(seen, contract, n)
            <==> c.MissingCase? && c.id !in seen && exists j :: 0 <= j < n && contract[j].id == c.id
  {
    if n > 0 { MissingCasesExactly(seen, contract, n - 1, c); }
  }

  /** The ids of the entries before entry `n`. */
  ghost function IdsBefore(items: seq<Json>, n: nat): set<Text>
    requires n <= |items|
  {
    set j: nat | j < n && items[j].Obj? :: EntryId(items[j])
  }

  lemma {:induction false} SeenAreIdsBefore(items: seq<Json>, n: nat)
    requires n <= |items|
    ensures SeenIds(CaseViewsOf(items), n) == IdsBefore(items, n)
  {
    forall id ensures id in SeenIds(CaseViewsOf(items), n) <==> id in IdsBefore(items, n) {
      IdsOfCases(items, n, SeenIds(CaseViewsOf(items), n), id);
    }
  }

  /** The complaints of the two loops over cases: those about each entry as above, and those about contract cases that
      no entry has the id of, and no others. */
  lemma {:induction false} LoopsExactly(items: seq<Json>, contract: seq<Case>, c: Complaint)
    ensures var (vs, byId) := (CaseViewsOf(items), CasesById(contract));
            && (c in CasesComplaints(vs, byId, |vs|)
                <==> exists i: nat :: i < |items| && CaseDraws(items[i], IdsBefore(items, i), byId, c))
            && (c in MissingCases(SeenIds(vs, |vs|), contract, |contract|)
                <==> c.MissingCase? && c.id !in IdsBefore(items, |items|)
                     && exists j :: 0 <= j < |contract| && contract[j].id == c.id)
  {
    var (vs, byId) := (CaseViewsOf(items), CasesById(contract));
    CasesUpTo(vs, byId, |vs|, CasesComplaints(vs, byId, |vs|), c);
    forall i: nat | i < |items|
      ensures ViewDraws(vs, byId, i, c) <==> CaseDraws(items[i], IdsBefore(items, i), byId, c)
    {
      SeenAreIdsBefore(items, i);
      CaseExactly(items[i], IdsBefore(items, i), byId, c);
    }
    SeenAreIdsBefore(items, |items|);
    MissingCasesExactly(SeenIds(vs, |vs|), contract, |contract|, c);
  }

  // ------------------------------------------------------------------ outcome

  /** The complaints about the outcome of a receipt. */
  lemma {:induction false} OutcomeExactly(outcome: Option<Json>, code: Option<Json>, incomplete: bool, c: Complaint)
    ensures c in OutcomeComplaints(OutcomeOf(outcome), FinalCodeOf(code), incomplete) <==>
              match c
              case PassedButIncomplete => IsText(outcome, Ascii("passed")) && incomplete
              case IncompatibleObservedCode =>
                IsText(outcome, Ascii("passed")) && !IsText(code, Ascii("complete_v1_release_qualified"))
              case MustAwait => IsText(outcome, Ascii("expected")) && !IsText(code, Ascii("awaiting_t028"))
              case BadOutcome => !IsText(outcome, Ascii("passed")) && !IsText(outcome, Ascii("expected"))
              case _ => false
  {
    OutcomeMeans(outcome, code);
    assert |Ascii("passed")| == 6 && |Ascii("expected")| == 8;
    assert |Ascii("complete_v1_release_qualified")| == 29 && |Ascii("awaiting_t028")| == 13;
  }

  /** An entry that leaves the receipt incomplete. */
  predicate LeavesIncomplete(entry: Json, byId: map<Text, Case>) {
    || !entry.Obj? || EntryId(entry) !in byId
    || (byId[EntryId(entry)].required != MustStayUnsatisfied
        && !IsText(Field(entry.members, STATUS), Ascii("passed")))
  }

  lemma {:induction false} IncompleteEntry(entry: Json, byId: map<Text, Case>)
    ensures Incomplete(CaseViewOf(entry), byId) <==> LeavesIncomplete(entry, byId)
  {
    if entry.Obj? { StatusMeans(Field(entry.members, STATUS)); }
  }

  lemma {:induction false} IncompleteUpTo(vs: seq<CaseView>, byId: map<Text, Case>, n: nat)
    requires n <= |vs|
    ensures AnyIncomplete(vs, byId, n) <==> exists i :: 0 <= i < n && Incomplete(vs[i], byId)
  {
    if n > 0 { IncompleteUpTo(vs, byId, n - 1); }
  }

  /** A case list is incomplete exactly when some entry leaves it so. */
  lemma {:induction false} IncompleteExactly(items: seq<Json>, byId: map<Text, Case>)
    ensures AnyIncomplete(CaseViewsOf(items), byId, |items|)
            <==> exists i :: 0 <= i < |items| && LeavesIncomplete(items[i], byId)
  {
    var vs := CaseViewsOf(items);
    IncompleteUpTo(vs, byId, |items|);
    forall i | 0 <= i < |items| ensures Incomplete(vs[i], byId) <==> LeavesIncomplete(items[i], byId) {
      assert vs[i] == CaseViewOf(items[i]);
      IncompleteEntry(items[i], byId);
    }
  }
}
