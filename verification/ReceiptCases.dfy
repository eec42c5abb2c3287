/** `validateCases` of the V1 receipt validator (qualification/v1/validate.ts), and exactly which case lists it
    accepts. */
module ReceiptCases {
  import opened Wrappers
  import opened Sequences
  import opened JsonText
  import opened Bytes
  import opened Receipt

  const CASES := Ascii("cases")
  const OUTCOME := Ascii("outcome")
  const COMMAND := Ascii("command")
  const EXPECTED_CODE := Ascii("expected_code")
  const OBSERVED_CODE := Ascii("observed_code")
  const STATUS := Ascii("status")
  const EVIDENCE := Ascii("evidence")
  const NETWORK := Ascii("unapproved_network_requests")
  const PRIVATE := Ascii("private_matches")
  const SAFETY := Ascii("safety_failures")
  const CASE_FIELDS := {ID, COMMAND, EXPECTED_CODE, OBSERVED_CODE, STATUS, EVIDENCE}
  const CASE_EVIDENCE_FIELDS := {NETWORK, PRIVATE, SAFETY}

  datatype Required = MustPass | MustStayUnsatisfied | MustOther(status: Text)

  /** A case of the contract. */
  datatype Case = Case(id: Text, command: Text, expectedCode: Text, required: Required)

  // -------------------------------------------------------------------- views

  datatype Status = Passed | Unsatisfied | Expected | Other

  function StatusOf(v: Option<Json>): Status {
    if IsText(v, Ascii("passed")) then Passed
    else if IsText(v, Ascii("unsatisfied")) then Unsatisfied
    else if IsText(v, Ascii("expected")) then Expected
    else Other
  }

  /** `v === 0`; -0 prints as 0. */
  predicate IsZero(v: Option<Json>) {
    v == Some(Number([48]))
  }

  datatype EvidenceView = EvidenceView(unknown: Complaints, noNetwork: bool, noPrivate: bool, noSafety: bool)

  /** What `validateCases` looks at in an entry. */
  datatype CaseView =
    | NotAnObject
    | CaseView(unknown: Complaints, id: Text, command: Option<Json>, expectedCode: Option<Json>,
               observedCode: Option<Json>, status: Status, evidence: Option<EvidenceView>)

  function EvidenceViewOf(v: Option<Json>): Option<EvidenceView> {
    match v
    case Some(Obj(members)) =>
      Some(EvidenceView(UnknownFields(members, CASE_EVIDENCE_FIELDS), IsZero(Field(members, NETWORK)),
                        IsZero(Field(members, PRIVATE)), Field(members, SAFETY) == Some(Arr([]))))
    case _ => None
  }

  function IdOf(v: Option<Json>): Text {
    match v
    case Some(Str(s)) => s
    case _ => []
  }

  function CaseViewOf(v: Json): CaseView {
    if !v.Obj? then NotAnObject
    else
      var m := v.members;
      CaseView(UnknownFields(m, CASE_FIELDS), IdOf(Field(m, ID)), Field(m, COMMAND), Field(m, EXPECTED_CODE),
               Field(m, OBSERVED_CODE), StatusOf(Field(m, STATUS)), EvidenceViewOf(Field(m, EVIDENCE)))
  }

  function CaseViewsOf(items: seq<Json>): (r: seq<CaseView>)
    ensures |r| == |items|
  {
    seq(|items|, i requires 0 <= i < |items| => CaseViewOf(items[i]))
  }

  // ---------------------------------------------------------------- complaints

  function When(b: bool, c: Complaint): Complaints { if b then [c] else [] }

  /** `new Map(contract.cases.map((item) => [item.id, item]))`. */
  function CasesById(contract: seq<Case>): (m: map<Text, Case>)
    ensures forall c :: c in contract ==> c.id in m
    ensures forall id :: id in m ==> m[id].id == id && m[id] in contract
  {
    if contract == [] then map[]
    else
      var n := |contract| - 1;
      CasesById(contract[..n])[contract[n].id := contract[n]]
  }

  /** The last case of an id counts. */
  lemma {:induction false} LastCaseCounts(contract: seq<Case>, k: nat)
    requires k < |contract| && forall j :: k < j < |contract| ==> contract[j].id != contract[k].id
    ensures contract[k].id in CasesById(contract) && CasesById(contract)[contract[k].id] == contract[k]
  {
    var n := |contract| - 1;
    if k < n {
      LastCaseCounts(contract[..n], k);
      assert contract[n].id != contract[k].id;
    }
  }

  function EvidenceComplaints(e: EvidenceView, id: Text): Complaints {
    When(!e.noNetwork, NetworkRequests(id)) + When(!e.noPrivate, PrivateMatches(id))
    + When(!e.noSafety, SafetyFailures(id))
  }

  /** The complaints about an entry of a known case beyond its id. */
  function KnownComplaints(v: CaseView, c: Case): Complaints
    requires v.CaseView?
  {
    When(!IsText(v.command, c.command), CommandDiffers(v.id))
    + When(!IsText(v.expectedCode, c.expectedCode), ExpectedCodeDiffers(v.id))
    + (match v.evidence case None => [EvidenceRequired(v.id)] case Some(e) => e.unknown)
    + StatusComplaints(v, c)
  }

  function StatusComplaints(v: CaseView, c: Case): Complaints
    requires v.CaseView?
  {
    if c.required == MustStayUnsatisfied then
      When(v.status != Unsatisfied || !IsText(v.observedCode, c.expectedCode), MustRemainUnsatisfied(v.id))
    else if v.status == Expected then [NotExecuted(v.id)]
    else if v.status != Passed then [DidNotPass(v.id)]
    else
      When(!IsText(v.observedCode, c.expectedCode), ObservedCodeDiffers(v.id))
      + match v.evidence case None => [] case Some(e) => EvidenceComplaints(e, v.id)
  }

  function CaseComplaints(v: CaseView, seen: set<Text>, byId: map<Text, Case>): Complaints {
    if v.NotAnObject? then [EntryNotAnObject]
    else
      v.unknown + When(v.id in seen, DuplicateId(v.id)) + IdComplaints(v, byId)
  }

  function IdComplaints(v: CaseView, byId: map<Text, Case>): Complaints
    requires v.CaseView?
  {
    if v.id in byId then KnownComplaints(v, byId[v.id]) else [UnknownId(v.id)]
  }

  /** Whether the entry sets `hasIncomplete`. */
  predicate Incomplete(v: CaseView, byId: map<Text, Case>) {
    v.NotAnObject? || v.id !in byId || (byId[v.id].required != MustStayUnsatisfied && v.status != Passed)
  }

  function IdsOfOne(v: CaseView): set<Text> { if v.NotAnObject? then {} else {v.id} }

  function SeenIds(vs: seq<CaseView>, n: nat): set<Text>
    requires n <= |vs|
  {
    if n == 0 then {} else SeenIds(vs, n - 1) + IdsOfOne(vs[n - 1])
  }

  function CasesComplaints(vs: seq<CaseView>, byId: map<Text, Case>, n: nat): Complaints
    requires n <= |vs|
  {
    if n == 0 then [] else CasesComplaints(vs, byId, n - 1) + CaseComplaints(vs[n - 1], SeenIds(vs, n - 1), byId)
  }

  predicate AnyIncomplete(vs: seq<CaseView>, byId: map<Text, Case>, n: nat)
    requires n <= |vs|
  {
    n > 0 && (AnyIncomplete(vs, byId, n - 1) || Incomplete(vs[n - 1], byId))
  }

  function MissingCases(seen: set<Text>, contract: seq<Case>, n: nat): Complaints
    requires n <= |contract|
  {
    if n == 0 then []
    else MissingCases(seen, contract, n - 1) + When(contract[n - 1].id !in seen, MissingCase(contract[n - 1].id))
  }

  predicate AnyMissing(seen: set<Text>, contract: seq<Case>, n: nat)
    requires n <= |contract|
  {
    n > 0
    && (AnyMissing(seen, contract, n - 1) || (contract[n - 1].id !in seen && contract[n - 1].required == MustPass))
  }

  datatype Outcome = OutcomePassed | OutcomeExpected | OutcomeOther

  datatype FinalCode = Qualified | AwaitingT028 | OtherCode

  function OutcomeOf(v: Option<Json>): Outcome {
    if IsText(v, Ascii("passed")) then OutcomePassed
    else if IsText(v, Ascii("expected")) then OutcomeExpected
    else OutcomeOther
  }

  function FinalCodeOf(v: Option<Json>): FinalCode {
    if IsText(v, Ascii("complete_v1_release_qualified")) then Qualified
    else if IsText(v, Ascii("awaiting_t028")) then AwaitingT028
    else OtherCode
  }

  function OutcomeComplaints(outcome: Outcome, code: FinalCode, hasIncomplete: bool): Complaints {
    match outcome
    case OutcomePassed => When(hasIncomplete, PassedButIncomplete) + When(code != Qualified, IncompatibleObservedCode)
    case OutcomeExpected => When(code != AwaitingT028, MustAwait)
    case OutcomeOther => [BadOutcome]
  }

  /** All complaints about a case list and the outcome of a receipt. */
  function AllComplaints(vs: seq<CaseView>, contract: seq<Case>, outcome: Outcome, code: FinalCode): Complaints {
    var byId := CasesById(contract);
    var seen := SeenIds(vs, |vs|);
    CasesComplaints(vs, byId, |vs|) + MissingCases(seen, contract, |contract|)
    + OutcomeComplaints(outcome, code, AnyIncomplete(vs, byId, |vs|) || AnyMissing(seen, contract, |contract|))
  }

  // ------------------------------------------------------------------ the loops

  /** The checks on an entry of a known case. */
  method CheckKnown(v: CaseView, expected: Case, errors0: Complaints) returns (errors: Complaints, incomplete: bool)
    requires v.CaseView?
    ensures errors == errors0 + KnownComplaints(v, expected)
    ensures incomplete <==> expected.required != MustStayUnsatisfied && v.status != Passed
  {
    errors := errors0;
    if !IsText(v.command, expected.command) { errors := errors + [CommandDiffers(v.id)]; }
    if !IsText(v.expectedCode, expected.expectedCode) { errors := errors + [ExpectedCodeDiffers(v.id)]; }
    if v.evidence.None? {
      errors := errors + [EvidenceRequired(v.id)];
    } else {
      errors := errors + v.evidence.value.unknown;
    }
    KnownJoins(errors0, errors, v, expected);
    errors, incomplete := CheckStatus(v, expected, errors);
  }

  lemma {:induction false} KnownJoins(errors0: Complaints, before: Complaints, v: CaseView, c: Case)
    requires v.CaseView?
    requires before == ((errors0 + When(!IsText(v.command, c.command), CommandDiffers(v.id)))
                        + When(!IsText(v.expectedCode, c.expectedCode), ExpectedCodeDiffers(v.id)))
                       + (match v.evidence case None => [EvidenceRequired(v.id)] case Some(e) => e.unknown)
    ensures before + StatusComplaints(v, c) == errors0 + KnownComplaints(v, c)
  {
    FourJoin(errors0, When(!IsText(v.command, c.command), CommandDiffers(v.id)),
             When(!IsText(v.expectedCode, c.expectedCode), ExpectedCodeDiffers(v.id)),
             match v.evidence case None => [EvidenceRequired(v.id)] case Some(e) => e.unknown,
             StatusComplaints(v, c));
  }

  lemma {:induction false} FourJoin(a: Complaints, b: Complaints, c: Complaints, d: Complaints, e: Complaints)
    ensures (((a + b) + c) + d) + e == a + (b + c + d + e)
  {}

  method CheckStatus(v: CaseView, expected: Case, errors0: Complaints) returns (errors: Complaints, incomplete: bool)
    requires v.CaseView?
    ensures errors == errors0 + StatusComplaints(v, expected)
    ensures incomplete <==> expected.required != MustStayUnsatisfied && v.status != Passed
  {
    errors, incomplete := errors0, false;
    if expected.required == MustStayUnsatisfied {
      if v.status != Unsatisfied || !IsText(v.observedCode, expected.expectedCode) {
        errors := errors + [MustRemainUnsatisfied(v.id)];
      }
      return;
    }
    if v.status == Expected { return errors + [NotExecuted(v.id)], true; }
    if v.status != Passed { return errors + [DidNotPass(v.id)], true; }
    if !IsText(v.observedCode, expected.expectedCode) { errors := errors + [ObservedCodeDiffers(v.id)]; }
    if v.evidence.Some? {
      if !v.evidence.value.noNetwork { errors := errors + [NetworkRequests(v.id)]; }
      if !v.evidence.value.noPrivate { errors := errors + [PrivateMatches(v.id)]; }
      if !v.evidence.value.noSafety { errors := errors + [SafetyFailures(v.id)]; }
    }
  }

  /** The loop body of `validateCases`. */
  method CheckCase(v: CaseView, seen0: set<Text>, byId: map<Text, Case>, errors0: Complaints)
    returns (seen: set<Text>, errors: Complaints, incomplete: bool)
    ensures errors == errors0 + CaseComplaints(v, seen0, byId)
    ensures incomplete == Incomplete(v, byId) && seen == seen0 + IdsOfOne(v)
  {
    seen, errors, incomplete := seen0, errors0, false;
    if v.NotAnObject? { return seen, errors + [EntryNotAnObject], true; }
    errors := errors + v.unknown;
    if v.id in seen { errors := errors + [DuplicateId(v.id)]; }
    seen := seen + {v.id};
    assert errors == (errors0 + v.unknown) + When(v.id in seen0, DuplicateId(v.id));
    EntryJoins(errors0, v.unknown, When(v.id in seen0, DuplicateId(v.id)), IdComplaints(v, byId));
    if v.id !in byId { return seen, errors + [UnknownId(v.id)], true; }
    errors, incomplete := CheckKnown(v, byId[v.id], errors);
  }

  lemma {:induction false} EntryJoins(a: Complaints, b: Complaints, c: Complaints, d: Complaints)
    ensures ((a + b) + c) + d == a + (b + c + d)
  {}

  /** The first loop of `validateCases`. */
  method CheckEntries(items: seq<Json>, byId: map<Text, Case>, errors0: Complaints)
    returns (seen: set<Text>, errors: Complaints, hasIncomplete: bool)
    ensures var vs := CaseViewsOf(items);
            && errors == errors0 + CasesComplaints(vs, byId, |vs|)
            && seen == SeenIds(vs, |vs|) && hasIncomplete == AnyIncomplete(vs, byId, |vs|)
  {
    ghost var vs := CaseViewsOf(items);
    seen, errors, hasIncomplete := {}, errors0, false;
    for i := 0 to |items|
      invariant errors == errors0 + CasesComplaints(vs, byId, i)
      invariant seen == SeenIds(vs, i) && hasIncomplete == AnyIncomplete(vs, byId, i)
    {
      Regroup(errors0, CasesComplaints(vs, byId, i), CaseComplaints(vs[i], seen, byId));
      var incomplete;
      seen, errors, incomplete := CheckCase(CaseViewOf(items[i]), seen, byId, errors);
      hasIncomplete := hasIncomplete || incomplete;
    }
  }

  /** The second loop. */
  method CheckMissing(seen: set<Text>, contract: seq<Case>, errors0: Complaints, incomplete0: bool)
    returns (errors: Complaints, hasIncomplete: bool)
    ensures errors == errors0 + MissingCases(seen, contract, |contract|)
    ensures hasIncomplete == (incomplete0 || AnyMissing(seen, contract, |contract|))
  {
    errors, hasIncomplete := errors0, incomplete0;
    for j := 0 to |contract|
      invariant errors == errors0 + MissingCases(seen, contract, j)
      invariant hasIncomplete == (incomplete0 || AnyMissing(seen, contract, j))
    {
      var expected := contract[j];
      Regroup(errors0, MissingCases(seen, contract, j), When(expected.id !in seen, MissingCase(expected.id)));
      if expected.id !in seen {
        errors := errors + [MissingCase(expected.id)];
        if expected.required == MustPass { hasIncomplete := true; }
      }
    }
  }

  /** The checks on the outcome. */
  method CheckOutcome(outcome: Outcome, code: FinalCode, hasIncomplete: bool, errors0: Complaints)
    returns (errors: Complaints)
    ensures errors == errors0 + OutcomeComplaints(outcome, code, hasIncomplete)
  {
    errors := errors0;
    match outcome {
      case OutcomePassed =>
        if hasIncomplete { errors := errors + [PassedButIncomplete]; }
        if code != Qualified { errors := errors + [IncompatibleObservedCode]; }
      case OutcomeExpected =>
        if code != AwaitingT028 { errors := errors + [MustAwait]; }
      case OutcomeOther =>
        errors := errors + [BadOutcome];
    }
  }

  /** `validateCases`. */
  method ValidateCases(receipt: seq<Entry<Json>>, contract: seq<Case>, errors0: Complaints)
    returns (errors: Complaints)
    ensures var cases := Field(receipt, CASES);
            var outcome := OutcomeOf(Field(receipt, OUTCOME));
            var code := FinalCodeOf(Field(receipt, OBSERVED_CODE));
            errors == errors0 + match cases
                                case Some(Arr(items)) => AllComplaints(CaseViewsOf(items), contract, outcome, code)
                                case _ => [NotAnArray]
    ensures errors == errors0 <==> ExactReport(receipt, contract)
  {
    var cases := Field(receipt, CASES);
    if cases.None? || !cases.value.Arr? { return errors0 + [NotAnArray]; }
    var byId := CasesById(contract);
    var seen, hasIncomplete;
    seen, errors, hasIncomplete := CheckEntries(cases.value.items, byId, errors0);
    ghost var vs := CaseViewsOf(cases.value.items);
    EntryJoins(errors0, CasesComplaints(vs, byId, |vs|), MissingCases(seen, contract, |contract|),
               OutcomeComplaints(OutcomeOf(Field(receipt, OUTCOME)), FinalCodeOf(Field(receipt, OBSERVED_CODE)),
                                 hasIncomplete || AnyMissing(seen, contract, |contract|)));
    errors, hasIncomplete := CheckMissing(seen, contract, errors, hasIncomplete);
    errors := CheckOutcome(OutcomeOf(Field(receipt, OUTCOME)), FinalCodeOf(Field(receipt, OBSERVED_CODE)),
                           hasIncomplete, errors);
    EntriesExactly(cases.value.items, contract);
    OutcomeMeans(Field(receipt, OUTCOME), Field(receipt, OBSERVED_CODE));
    CasesAcceptedExactly(vs, contract, OutcomeOf(Field(receipt, OUTCOME)), FinalCodeOf(Field(receipt, OBSERVED_CODE)));
  }

  // --------------------------------------------------------- what is accepted

  /** An entry that reports its case as the contract requires, with clean evidence. */
  predicate GoodCase(v: CaseView, byId: map<Text, Case>) {
    && v.CaseView? && v.unknown == [] && v.id in byId
    && IsText(v.command, byId[v.id].command)
    && IsText(v.expectedCode, byId[v.id].expectedCode)
    && IsText(v.observedCode, byId[v.id].expectedCode)
    && v.evidence.Some? && v.evidence.value.unknown == []
    && if byId[v.id].required == MustStayUnsatisfied then v.status == Unsatisfied
       else v.status == Passed && v.evidence.value.noNetwork && v.evidence.value.noPrivate && v.evidence.value.noSafety
  }

  lemma {:induction false} CaseAccepted(v: CaseView, seen: set<Text>, byId: map<Text, Case>)
    ensures CaseComplaints(v, seen, byId) == [] <==> GoodCase(v, byId) && v.id !in seen
  {}

  /** An incomplete entry has drawn a complaint of its own. */
  lemma {:induction false} IncompleteIsNotGood(v: CaseView, byId: map<Text, Case>)
    requires Incomplete(v, byId)
    ensures !GoodCase(v, byId)
  {}

  predicate GoodCases(vs: seq<CaseView>, byId: map<Text, Case>, n: nat)
    requires n <= |vs|
  {
    forall i :: 0 <= i < n ==> GoodCase(vs[i], byId)
  }

  predicate AllObjects(vs: seq<CaseView>) {
    forall i :: 0 <= i < |vs| ==> vs[i].CaseView?
  }

  function CaseIds(vs: seq<CaseView>): (r: seq<Text>)
    requires AllObjects(vs)
    ensures |r| == |vs|
  {
    seq(|vs|, i requires 0 <= i < |vs| => vs[i].id)
  }

  /** The ids of the first entries, when those are objects. */
  function FirstIds(vs: seq<CaseView>, n: nat): seq<Text>
    requires n <= |vs|
  {
    if n == 0 then [] else FirstIds(vs, n - 1) + if vs[n - 1].NotAnObject? then [] else [vs[n - 1].id]
  }

  lemma {:induction false} SeenAreFirstIds(vs: seq<CaseView>, n: nat)
    requires n <= |vs|
    ensures SeenIds(vs, n) == SetOf(FirstIds(vs, n))
  {
    if n > 0 { SeenAreFirstIds(vs, n - 1); }
  }

  lemma {:induction false} CasesStep(before: Complaints, goodBefore: bool, ids: seq<Text>, v: CaseView, seen: set<Text>,
                                     byId: map<Text, Case>)
    requires before == [] <==> goodBefore && AllCounted(ids)
    requires seen == SetOf(ids)
    ensures before + CaseComplaints(v, seen, byId) == [] <==>
              goodBefore && GoodCase(v, byId) && AllCounted(ids + if v.NotAnObject? then [] else [v.id])
  {
    CaseAccepted(v, seen, byId);
    if v.CaseView? { CountedSnoc(ids, v.id); }
  }

  lemma {:induction false} EntriesUpTo(vs: seq<CaseView>, byId: map<Text, Case>, n: nat, cs: Complaints, ids: seq<Text>)
    requires n <= |vs| && cs == CasesComplaints(vs, byId, n) && ids == FirstIds(vs, n)
    ensures cs == [] <==> GoodCases(vs, byId, n) && AllCounted(ids)
  {
    if n > 0 {
      var m: nat := n - 1;
      EntriesUpTo(vs, byId, m, CasesComplaints(vs, byId, m), FirstIds(vs, m));
      EntryLast(vs, byId, m, n, CasesComplaints(vs, byId, m), FirstIds(vs, m), cs, ids);
    }
  }

  lemma {:induction false} EntryLast(vs: seq<CaseView>, byId: map<Text, Case>, m: nat, n: nat, before: Complaints,
                                     idsBefore: seq<Text>, cs: Complaints, ids: seq<Text>)
    requires n == m + 1 <= |vs| && before == CasesComplaints(vs, byId, m) && idsBefore == FirstIds(vs, m)
    requires cs == CasesComplaints(vs, byId, n) && ids == FirstIds(vs, n)
    requires before == [] <==> GoodCases(vs, byId, m) && AllCounted(idsBefore)
    ensures cs == [] <==> GoodCases(vs, byId, n) && AllCounted(ids)
  {
    SeenAreFirstIds(vs, m);
    GoodCasesStep(vs, byId, n);
    CasesStep(before, GoodCases(vs, byId, m), idsBefore, vs[m], SeenIds(vs, m), byId);
  }

  /** The first loop complains about nothing exactly when all entries are good and no id repeats. */
  lemma {:induction false} EntriesAccepted(vs: seq<CaseView>, byId: map<Text, Case>)
    ensures CasesComplaints(vs, byId, |vs|) == [] <==> GoodCases(vs, byId, |vs|) && AllCounted(FirstIds(vs, |vs|))
  {
    EntriesUpTo(vs, byId, |vs|, CasesComplaints(vs, byId, |vs|), FirstIds(vs, |vs|));
  }

  lemma {:induction false} GoodCasesStep(vs: seq<CaseView>, byId: map<Text, Case>, n: nat)
    requires 0 < n <= |vs|
    ensures GoodCases(vs, byId, n) <==> GoodCases(vs, byId, n - 1) && GoodCase(vs[n - 1], byId)
  {}

  lemma {:induction false} MissingAccepted(seen: set<Text>, contract: seq<Case>, n: nat)
    requires n <= |contract|
    ensures MissingCases(seen, contract, n) == [] <==> forall j :: 0 <= j < n ==> contract[j].id in seen
    ensures MissingCases(seen, contract, n) == [] ==> !AnyMissing(seen, contract, n)
  {
    if n > 0 { MissingAccepted(seen, contract, n - 1); }
  }

  lemma {:induction false} GoodMeansComplete(vs: seq<CaseView>, byId: map<Text, Case>, n: nat)
    requires n <= |vs| && GoodCases(vs, byId, n)
    ensures !AnyIncomplete(vs, byId, n)
  {
    if n > 0 {
      GoodMeansComplete(vs, byId, n - 1);
      if Incomplete(vs[n - 1], byId) { IncompleteIsNotGood(vs[n - 1], byId); }
    }
  }

  lemma {:induction false} FirstIdsAre(vs: seq<CaseView>, n: nat)
    requires n <= |vs| && AllObjects(vs)
    ensures FirstIds(vs, n) == CaseIds(vs)[..n]
  {
    if n > 0 {
      FirstIdsAre(vs, n - 1);
      assert CaseIds(vs)[..n] == CaseIds(vs)[..n - 1] + [vs[n - 1].id];
    }
  }

  /** Each case of the contract is reported exactly once, as required, and nothing else is reported. */
  ghost predicate ExactCases(vs: seq<CaseView>, contract: seq<Case>) {
    && AllObjects(vs)
    && GoodCases(vs, CasesById(contract), |vs|)
    && NoDup(CaseIds(vs))
    && forall c :: c in contract ==> c.id in CaseIds(vs)
  }

  /** The outcome that a receipt may state. */
  predicate GoodOutcome(outcome: Outcome, code: FinalCode) {
    (outcome == OutcomePassed && code == Qualified) || (outcome == OutcomeExpected && code == AwaitingT028)
  }

  /** An entry that reports the case as the contract requires. A missing id counts as the empty one. */
  predicate Reports(entry: Json, c: Case) {
    && entry.Obj? && OnlyFields(entry.members, CASE_FIELDS)
    && IdOf(Field(entry.members, ID)) == c.id
    && IsText(Field(entry.members, COMMAND), c.command)
    && IsText(Field(entry.members, EXPECTED_CODE), c.expectedCode)
    && IsText(Field(entry.members, OBSERVED_CODE), c.expectedCode)
    && IsText(Field(entry.members, STATUS), RequiredStatus(c))
    && match Field(entry.members, EVIDENCE)
       case Some(Obj(evidence)) =>
         OnlyFields(evidence, CASE_EVIDENCE_FIELDS) && (c.required == MustStayUnsatisfied || Clean(evidence))
       case _ => false
  }

  function RequiredStatus(c: Case): Text {
    Ascii(if c.required == MustStayUnsatisfied then "unsatisfied" else "passed")
  }

  /** No network requests, no private matches, no safety failures. */
  predicate Clean(evidence: seq<Entry<Json>>) {
    && IsZero(Field(evidence, NETWORK)) && IsZero(Field(evidence, PRIVATE))
    && Field(evidence, SAFETY) == Some(Arr([]))
  }

  lemma {:induction false} StatusMeans(v: Option<Json>)
    ensures StatusOf(v) == Passed <==> IsText(v, Ascii("passed"))
    ensures StatusOf(v) == Unsatisfied <==> IsText(v, Ascii("unsatisfied"))
    ensures StatusOf(v) == Expected <==> IsText(v, Ascii("expected"))
  {
    assert |Ascii("passed")| == 6 && |Ascii("unsatisfied")| == 11 && |Ascii("expected")| == 8;
  }

  function EntryId(entry: Json): Text { if entry.Obj? then IdOf(Field(entry.members, ID)) else [] }

  lemma {:induction false} GoodCaseMeans(entry: Json, byId: map<Text, Case>)
    requires forall id :: id in byId ==> byId[id].id == id
    ensures GoodCase(CaseViewOf(entry), byId)
            <==> entry.Obj? && EntryId(entry) in byId && Reports(entry, byId[EntryId(entry)])
  {
    if entry.Obj? { StatusMeans(Field(entry.members, STATUS)); }
  }

  /** The contract's entry for an id is the last one. */
  ghost predicate ExactEntries(items: seq<Json>, contract: seq<Case>) {
    && (forall i :: 0 <= i < |items| ==> ReportsOne(items[i], CasesById(contract)))
    && (forall i, j :: 0 <= i < j < |items| ==> EntryId(items[i]) != EntryId(items[j]))
    && (forall c :: c in contract ==> exists i :: 0 <= i < |items| && EntryId(items[i]) == c.id)
  }

  predicate ReportsOne(entry: Json, byId: map<Text, Case>) {
    entry.Obj? && EntryId(entry) in byId && Reports(entry, byId[EntryId(entry)])
  }

  lemma {:induction false} CaseIdsAre(items: seq<Json>, vs: seq<CaseView>)
    requires vs == CaseViewsOf(items) && AllObjects(vs)
    ensures forall i :: 0 <= i < |items| ==> CaseIds(vs)[i] == EntryId(items[i])
  {
    forall i | 0 <= i < |items| ensures CaseIds(vs)[i] == EntryId(items[i]) { assert vs[i] == CaseViewOf(items[i]); }
  }

  /** The cases that are accepted, told by the entries. */
  lemma {:induction false} EntriesExactly(items: seq<Json>, contract: seq<Case>)
    ensures ExactCases(CaseViewsOf(items), contract) <==> ExactEntries(items, contract)
  {
    var (vs, byId) := (CaseViewsOf(items), CasesById(contract));
    forall i | 0 <= i < |items| ensures GoodCase(vs[i], byId) <==> ReportsOne(items[i], byId) {
      assert vs[i] == CaseViewOf(items[i]);
      GoodCaseMeans(items[i], byId);
    }
    if GoodCases(vs, byId, |vs|) {
      CaseIdsAre(items, vs);
      IdsTold(items, CaseIds(vs), contract);
    }
    if ExactEntries(items, contract) { assert GoodCases(vs, byId, |vs|); }
  }

  lemma {:induction false} IdsTold(items: seq<Json>, ids: seq<Text>, contract: seq<Case>)
    requires |ids| == |items| && forall i :: 0 <= i < |items| ==> ids[i] == EntryId(items[i])
    ensures NoDup(ids) <==> forall i, j :: 0 <= i < j < |items| ==> EntryId(items[i]) != EntryId(items[j])
    ensures (forall c :: c in contract ==> c.id in ids)
            <==> forall c :: c in contract ==> exists i :: 0 <= i < |items| && EntryId(items[i]) == c.id
  {
    forall id ensures id in ids <==> exists i :: 0 <= i < |items| && EntryId(items[i]) == id {
      if id in ids {
        var i :| 0 <= i < |ids| && ids[i] == id;
        assert EntryId(items[i]) == id;
      }
      if exists i :: 0 <= i < |items| && EntryId(items[i]) == id {
        var i :| 0 <= i < |items| && EntryId(items[i]) == id;
        assert ids[i] == id;
      }
    }
  }

  /** The outcome and the code that fits it. */
  predicate OutcomeFits(outcome: Option<Json>, code: Option<Json>) {
    || (IsText(outcome, Ascii("passed")) && IsText(code, Ascii("complete_v1_release_qualified")))
    || (IsText(outcome, Ascii("expected")) && IsText(code, Ascii("awaiting_t028")))
  }

  lemma {:induction false} OutcomeMeans(outcome: Option<Json>, code: Option<Json>)
    ensures GoodOutcome(OutcomeOf(outcome), FinalCodeOf(code)) <==> OutcomeFits(outcome, code)
  {
    assert |Ascii("passed")| == 6 && |Ascii("expected")| == 8;
    assert |Ascii("complete_v1_release_qualified")| == 29 && |Ascii("awaiting_t028")| == 13;
  }

  /** What a receipt's cases and outcome must be. */
  ghost predicate ExactReport(receipt: seq<Entry<Json>>, contract: seq<Case>) {
    && OutcomeFits(Field(receipt, OUTCOME), Field(receipt, OBSERVED_CODE))
    && match Field(receipt, CASES)
       case Some(Arr(items)) => ExactEntries(items, contract)
       case _ => false
  }

  lemma {:induction false} ThreePartsEmpty(a: Complaints, b: Complaints, c: Complaints)
    ensures a + b + c == [] <==> a == [] && b == [] && c == []
  {}

  lemma {:induction false} GoodIdsAre(vs: seq<CaseView>, byId: map<Text, Case>)
    requires GoodCases(vs, byId, |vs|)
    ensures AllObjects(vs) && FirstIds(vs, |vs|) == CaseIds(vs) && SeenIds(vs, |vs|) == SetOf(CaseIds(vs))
  {
    FirstIdsAre(vs, |vs|);
    SeenAreFirstIds(vs, |vs|);
    assert CaseIds(vs)[..|vs|] == CaseIds(vs);
  }

  /** The two loops complain about nothing exactly when the cases are the contract's. */
  lemma {:induction false} LoopsAccept(vs: seq<CaseView>, contract: seq<Case>)
    ensures ExactCases(vs, contract) <==>
              CasesComplaints(vs, CasesById(contract), |vs|) == []
              && MissingCases(SeenIds(vs, |vs|), contract, |contract|) == []
  {
    var byId := CasesById(contract);
    EntriesAccepted(vs, byId);
    MissingAccepted(SeenIds(vs, |vs|), contract, |contract|);
    if GoodCases(vs, byId, |vs|) {
      GoodIdsAre(vs, byId);
      Pigeonhole(CaseIds(vs));
      ContractIdsIn(SeenIds(vs, |vs|), CaseIds(vs), contract);
    }
  }

  lemma {:induction false} ContractIdsIn(seen: set<Text>, ids: seq<Text>, contract: seq<Case>)
    requires seen == SetOf(ids)
    ensures (forall j :: 0 <= j < |contract| ==> contract[j].id in seen) <==> forall c :: c in contract ==> c.id in ids
  {}

  /** After loops without complaint `hasIncomplete` is not set. */
  lemma {:induction false} NoComplaintNoneIncomplete(vs: seq<CaseView>, contract: seq<Case>)
    requires CasesComplaints(vs, CasesById(contract), |vs|) == []
    requires MissingCases(SeenIds(vs, |vs|), contract, |contract|) == []
    ensures !AnyIncomplete(vs, CasesById(contract), |vs|) && !AnyMissing(SeenIds(vs, |vs|), contract, |contract|)
  {
    EntriesAccepted(vs, CasesById(contract));
    GoodMeansComplete(vs, CasesById(contract), |vs|);
    MissingAccepted(SeenIds(vs, |vs|), contract, |contract|);
  }

  lemma {:induction false} OutcomeAccepted(outcome: Outcome, code: FinalCode)
    ensures OutcomeComplaints(outcome, code, false) == [] <==> GoodOutcome(outcome, code)
  {}

  /** `validateCases` adds no complaint exactly when each contract case is reported exactly once with its
      required status and codes and the outcome fits its code. The test of `hasIncomplete` decides nothing: a
      receipt that awaits its run is held to the same cases as one that passed. */
  lemma {:induction false} CasesAcceptedExactly(vs: seq<CaseView>, contract: seq<Case>, outcome: Outcome,
                                                code: FinalCode)
    ensures AllComplaints(vs, contract, outcome, code) == [] <==> ExactCases(vs, contract) && GoodOutcome(outcome, code)
  {
    LoopsAccept(vs, contract);
    OutcomeAccepted(outcome, code);
    var entries := CasesComplaints(vs, CasesById(contract), |vs|);
    var missing := MissingCases(SeenIds(vs, |vs|), contract, |contract|);
    if entries == [] && missing == [] { NoComplaintNoneIncomplete(vs, contract); }
    ThreePartsEmpty(entries, missing,
                    OutcomeComplaints(outcome, code, AnyIncomplete(vs, CasesById(contract), |vs|)
                                                     || AnyMissing(SeenIds(vs, |vs|), contract, |contract|)));
  }
}
