/** The task-result callback: turning a validation report into the
    document reported to the run platform, and the status of delivering it. */
module Callback {
  import opened Common

  datatype TaskResultStatus = Running | Passed | Failed

  /** The status as the document spells it: the lowercase name. */
  function StatusName(s: TaskResultStatus): string {
    match s
    case Running => "running"
    case Passed => "passed"
    case Failed => "failed"
  }

  const Low := "LOW"
  const Medium := "MEDIUM"
  const High := "HIGH"
  const Critical := "CRITICAL"

  const RunningMessage := "operation running"
  const OutcomeId := "sample-outcome-id"

  /** The `violatedPolicy` object of a finding. */
  datatype ViolatedPolicy = ViolatedPolicy(constraintType: Option<string>)

  /** One finding of the report; an absent (or null) field is None. */
  datatype Violation = Violation(
    assetId: Option<string>,
    policyId: Option<string>,
    violatedPolicy: Option<ViolatedPolicy>,
    severity: Option<string>)

  /** The `iacValidationReport` object; `violations` is None when the key is
      absent or null. */
  datatype IacValidationReport = IacValidationReport(violations: Option<seq<Violation>>)

  /** The completion payload of the validation operation: its `name` member
      is indexed, so an absent one differs from `null`; the validation report
      is read with `.get`, so absent and `null` are both None. */
  datatype Report = Report(name: Field<string>, iacValidationReport: Option<IacValidationReport>)

  /** One `task-result-outcomes` entry. */
  datatype Outcome = Outcome(outcomeId: string, description: string, body: string)

  /** The attributes of a `task-results` document; `outcomes` is None when the
      document has no `relationships` member at all. */
  datatype TaskResultDocument = TaskResultDocument(
    status: string,
    message: string,
    url: Option<string>,
    outcomes: Option<seq<Outcome>>)

  /** Python truthiness of an optional string: present and non-empty. */
  predicate Truthy(o: Option<string>) {
    o.Some? && o.value != ""
  }

  function ConstraintType(v: Violation): Option<string>
    requires v.violatedPolicy.Some?
  {
    v.violatedPolicy.value.constraintType
  }

  /** A finding that has all four fields it is rendered from. */
  predicate Renderable(v: Violation)
    requires v.violatedPolicy.Some?
  {
    Truthy(v.assetId) && Truthy(v.policyId) && Truthy(ConstraintType(v)) && Truthy(v.severity)
  }

  function Render(v: Violation): (o: Outcome)
    requires v.violatedPolicy.Some? && Renderable(v)
  {
    Outcome(
      OutcomeId,
      "Policy " + v.policyId.value + " violated by asset " + v.assetId.value,
      "### Severity \n" + v.severity.value + " \n### Asset ID \n" + v.assetId.value
        + " \n### Policy \n" + v.policyId.value + " \n### Constraint type \n" + ConstraintType(v).value)
  }

  predicate AllHavePolicy(vs: seq<Violation>) {
    forall i | 0 <= i < |vs| :: vs[i].violatedPolicy.Some?
  }

  /** The number of findings whose severity is exactly `severity`. */
  function SeverityCount(vs: seq<Violation>, severity: string): nat {
    if vs == [] then 0
    else SeverityCount(vs[..|vs| - 1], severity) + (if vs[|vs| - 1].severity == Some(severity) then 1 else 0)
  }

  /** The outcome records of the renderable findings, in report order. */
  function Outcomes(vs: seq<Violation>): seq<Outcome>
    requires AllHavePolicy(vs)
  {
    if vs == [] then []
    else
      var last := vs[|vs| - 1];
      Outcomes(vs[..|vs| - 1]) + (if Renderable(last) then [Render(last)] else [])
  }

  function SummaryMessage(low: nat, medium: nat, high: nat, critical: nat): string {
    NatToString(low) + " LOW, " + NatToString(medium) + " MEDIUM, " + NatToString(high) + " HIGH, "
      + NatToString(critical) + " CRITICAL asset violations found"
  }

  /** The reduced document sent as a heartbeat while the operation runs. */
  const RunningDocument := TaskResultDocument(StatusName(Running), RunningMessage, None, None)

  /** The findings a report is built from: an absent list counts as empty. */
  function Findings(report: Report): seq<Violation>
    requires report.iacValidationReport.Some?
  {
    report.iacValidationReport.value.violations.GetOr([])
  }

  /** A report the final document can be built from: it has a `name` member
      (possibly `null`), a validation report, and every finding has a
      `violatedPolicy`. */
  predicate WellShaped(report: Option<Report>) {
    && report.Some?
    && !report.value.name.Absent?
    && report.value.iacValidationReport.Some?
    && AllHavePolicy(Findings(report.value))
  }

  /** The final document of a report: None unless the report is well shaped;
      otherwise passed exactly when `violations` is absent or `null`, the
      four per-severity counts as its message, the report's URL, and the
      outcome records of the findings. */
  function FinalDocument(report: Option<Report>): Option<TaskResultDocument> {
    if !WellShaped(report) then None
    else
      var r := report.value;
      var vs := Findings(r);
      Some(TaskResultDocument(
        StatusName(if r.iacValidationReport.value.violations.None? then Passed else Failed),
        SummaryMessage(SeverityCount(vs, Low), SeverityCount(vs, Medium), SeverityCount(vs, High), SeverityCount(vs, Critical)),
        Some(ServiceUrl + FieldText(r.name)),
        Some(Outcomes(vs))))
  }

  /** A report with a finding of any severity is never reported as passed. */
  lemma FindingsFail(report: Option<Report>, i: int)
    requires WellShaped(report) && 0 <= i < |Findings(report.value)|
    ensures FinalDocument(report).Some? && FinalDocument(report).value.status == StatusName(Failed)
  {
  }

  /** `create_task_result_callback_request`: with the RUNNING status (the
      default) the heartbeat document; with any other status, the final
      document of the report, or None when the report is not well shaped. */
  method CreateTaskResultCallbackRequest(report: Option<Report>, status: Option<TaskResultStatus>)
    returns (doc: Option<TaskResultDocument>)
    ensures status == Some(Running) ==> doc == Some(RunningDocument)
    ensures status != Some(Running) ==> (doc.Some? <==> WellShaped(report))
    ensures status != Some(Running) && doc.Some? ==>
      var r := report.value;
      var vs := Findings(r);
      && doc.value.status == StatusName(if r.iacValidationReport.value.violations.None? then Passed else Failed)
      && doc.value.message == SummaryMessage(SeverityCount(vs, Low), SeverityCount(vs, Medium),
                                             SeverityCount(vs, High), SeverityCount(vs, Critical))
      && doc.value.url == Some(ServiceUrl + FieldText(r.name))
      && doc.value.outcomes == Some(Outcomes(vs))
    ensures status != Some(Running) ==> doc == FinalDocument(report)
  {
    if status == Some(Running) {
      return Some(TaskResultDocument("running", "operation running", None, None));
    }
    if report.None? || report.value.name.Absent? || report.value.iacValidationReport.None? {
      return None;
    }
    var reportId := FieldText(report.value.name);
    var violations := report.value.iacValidationReport.value.violations;
    var finalStatus: TaskResultStatus;
    var vs: seq<Violation>;
    if violations.None? {
      finalStatus := Passed;
      vs := [];
    } else {
      finalStatus := Failed;
      vs := violations.value;
    }
    var criticalCount, highCount, mediumCount, lowCount := 0, 0, 0, 0;
    var outcomes: seq<Outcome> := [];
    var i := 0;
    while i < |vs|
      invariant 0 <= i <= |vs|
      invariant AllHavePolicy(vs[..i])
      invariant lowCount == SeverityCount(vs[..i], Low)
      invariant mediumCount == SeverityCount(vs[..i], Medium)
      invariant highCount == SeverityCount(vs[..i], High)
      invariant criticalCount == SeverityCount(vs[..i], Critical)
      invariant outcomes == Outcomes(vs[..i])
    {
      var v := vs[i];
      if v.violatedPolicy.None? {
        // `violation.get("violatedPolicy").get(...)` raises; the whole result is None
        assert !AllHavePolicy(vs);
        return None;
      }
      assert vs[..i + 1][..i] == vs[..i];
      if v.severity == Some(Low) {
        lowCount := lowCount + 1;
      } else if v.severity == Some(Medium) {
        mediumCount := mediumCount + 1;
      } else if v.severity == Some(High) {
        highCount := highCount + 1;
      } else if v.severity == Some(Critical) {
        criticalCount := criticalCount + 1;
      }
      if Renderable(v) {
        outcomes := outcomes + [Render(v)];
      }
      i := i + 1;
    }
    assert vs[..i] == vs;
    var message := SummaryMessage(lowCount, mediumCount, highCount, criticalCount);
    return Some(TaskResultDocument(StatusName(finalStatus), message, Some(ServiceUrl + reportId), Some(outcomes)));
  }

  /** `send_terraform_callback`, reduced to the status code it returns for
      the PATCH exchange: the response's status, the status carried by a
      request exception, or 500. */
  function SendTerraformCallback(exchange: Transport): (code: int)
    ensures exchange.Responded? ==> code == exchange.code
    ensures exchange.RequestFailed? ==> code == ErrorStatus(exchange.status)
  {
    match exchange
    case Responded(c) => c
    case RequestFailed(s, _) => ErrorStatus(s)
  }

  // ----- Properties of the specification functions -----

  lemma {:induction false} SeverityCountAppend(a: seq<Violation>, b: seq<Violation>, severity: string)
    ensures SeverityCount(a + b, severity) == SeverityCount(a, severity) + SeverityCount(b, severity)
    decreases |b|
  {
    if b != [] {
      var b' := b[..|b| - 1];
      assert (a + b)[..|a + b| - 1] == a + b';
      SeverityCountAppend(a, b', severity);
    } else {
      assert a + b == a;
    }
  }

  /** Each finding adds one to at most one counter, so the four counters
      together never exceed the number of findings. */
  lemma {:induction false} CountsBounded(vs: seq<Violation>)
    ensures SeverityCount(vs, Low) + SeverityCount(vs, Medium) + SeverityCount(vs, High)
            + SeverityCount(vs, Critical) <= |vs|
  {
    if vs != [] {
      CountsBounded(vs[..|vs| - 1]);
    }
  }

  /** Each counter is at most the number of findings. */
  lemma {:induction false} SeverityCountBounded(vs: seq<Violation>, severity: string)
    ensures SeverityCount(vs, severity) <= |vs|
  {
    if vs != [] {
      SeverityCountBounded(vs[..|vs| - 1], severity);
    }
  }

  /** A finding whose severity is none of the four names is counted nowhere. */
  lemma {:induction false} UnknownSeverityNotCounted(vs: seq<Violation>, v: Violation)
    requires v.severity !in {Some(Low), Some(Medium), Some(High), Some(Critical)}
    ensures SeverityCount(vs + [v], Low) == SeverityCount(vs, Low)
    ensures SeverityCount(vs + [v], Medium) == SeverityCount(vs, Medium)
    ensures SeverityCount(vs + [v], High) == SeverityCount(vs, High)
    ensures SeverityCount(vs + [v], Critical) == SeverityCount(vs, Critical)
  {
    assert (vs + [v])[..|vs|] == vs;
  }

  lemma {:induction false} OutcomesAppend(a: seq<Violation>, b: seq<Violation>)
    requires AllHavePolicy(a) && AllHavePolicy(b)
    ensures AllHavePolicy(a + b)
    ensures Outcomes(a + b) == Outcomes(a) + Outcomes(b)
    decreases |b|
  {
    if b == [] {
      assert a + b == a;
    } else {
      var b' := b[..|b| - 1];
      assert (a + b)[..|a + b| - 1] == a + b';
      OutcomesAppend(a, b');
    }
  }

  /** Outcomes never outnumber findings. */
  lemma {:induction false} OutcomesBounded(vs: seq<Violation>)
    requires AllHavePolicy(vs)
    ensures |Outcomes(vs)| <= |vs|
  {
    if vs != [] {
      OutcomesBounded(vs[..|vs| - 1]);
    }
  }

  /** Every outcome is the rendering of a renderable finding of the report. */
  lemma {:induction false} OutcomeComesFromFinding(vs: seq<Violation>, k: nat)
    requires AllHavePolicy(vs) && k < |Outcomes(vs)|
    ensures exists i :: 0 <= i < |vs| && Renderable(vs[i]) && Outcomes(vs)[k] == Render(vs[i])
  {
    var init := vs[..|vs| - 1];
    if k < |Outcomes(init)| {
      OutcomeComesFromFinding(init, k);
      var i :| 0 <= i < |init| && Renderable(init[i]) && Outcomes(init)[k] == Render(init[i]);
      assert vs[i] == init[i];
    } else {
      assert Outcomes(vs)[k] == Render(vs[|vs| - 1]);
    }
  }

  /** Every renderable finding appears among the outcomes. */
  lemma {:induction false} FindingProducesOutcome(vs: seq<Violation>, i: nat)
    requires AllHavePolicy(vs) && i < |vs| && Renderable(vs[i])
    ensures Render(vs[i]) in Outcomes(vs)
  {
    var init := vs[..|vs| - 1];
    if i < |init| {
      FindingProducesOutcome(init, i);
      assert vs[i] == init[i];
    }
  }

  /** A finding that cannot be rendered leaves the outcomes unchanged, yet
      still adds to its severity's counter. */
  lemma {:induction false} UnrenderableStillCounted(v: Violation, vs: seq<Violation>, severity: string)
    requires v.violatedPolicy.Some? && AllHavePolicy(vs) && !Renderable(v) && v.severity == Some(severity)
    ensures AllHavePolicy([v] + vs)
    ensures Outcomes([v] + vs) == Outcomes(vs)
    ensures SeverityCount([v] + vs, severity) == SeverityCount(vs, severity) + 1
  {
    OutcomesAppend([v], vs);
    SeverityCountAppend([v], vs, severity);
    assert [v][..0] == [];
  }

  /** The report with findings LOW, HIGH, HIGH gives counters 1, 0, 2, 0 and the
      message "1 LOW, 0 MEDIUM, 2 HIGH, 0 CRITICAL asset violations found". */
  lemma ExampleSummary(a: Violation, b: Violation, c: Violation)
    requires a.severity == Some(Low) && b.severity == Some(High) && c.severity == Some(High)
    ensures var vs := [a, b, c];
      SummaryMessage(SeverityCount(vs, Low), SeverityCount(vs, Medium), SeverityCount(vs, High),
                     SeverityCount(vs, Critical))
      == "1 LOW, 0 MEDIUM, 2 HIGH, 0 CRITICAL asset violations found"
  {
    ExampleCounts(a, b, c);
    assert NatToString(0) == "0" && NatToString(1) == "1" && NatToString(2) == "2";
    ExampleSummaryText();
  }

  // The literal equality of the message is split over three lemmas: proved
  // in one piece, it does not fit within the solver's resource limit.
  lemma ExampleSummaryText()
    ensures "1" + " LOW, " + "0" + " MEDIUM, " + "2" + " HIGH, " + "0" + " CRITICAL asset violations found"
         == "1 LOW, 0 MEDIUM, 2 HIGH, 0 CRITICAL asset violations found"
  {
    ExampleCountsText();
    ExampleTailText();
  }

  lemma ExampleCountsText()
    ensures "1" + " LOW, " + "0" + " MEDIUM, " + "2" + " HIGH, " + "0" == "1 LOW, 0 MEDIUM, 2 HIGH, 0"
  {
    assert "1" + " LOW, " + "0" == "1 LOW, 0";
    assert "1 LOW, 0" + " MEDIUM, " + "2" == "1 LOW, 0 MEDIUM, 2";
  }

  lemma ExampleTailText()
    ensures "1 LOW, 0 MEDIUM, 2 HIGH, 0" + " CRITICAL asset violations found" == "1 LOW, 0 MEDIUM, 2 HIGH, 0 CRITICAL asset violations found"
  {
  }

  lemma ExampleCounts(a: Violation, b: Violation, c: Violation)
    requires a.severity == Some(Low) && b.severity == Some(High) && c.severity == Some(High)
    ensures var vs := [a, b, c];
      && SeverityCount(vs, Low) == 1 && SeverityCount(vs, Medium) == 0
      && SeverityCount(vs, High) == 2 && SeverityCount(vs, Critical) == 0
  {
    var vs := [a, b, c];
    assert [a, b][..1] == [a] && [a][..0] == [];
    assert vs[..2] == [a, b];
    assert Low != High && Low != Medium && Low != Critical && High != Medium && High != Critical;
    forall sev | sev in {Low, Medium, High, Critical}
      ensures SeverityCount(vs, sev)
           == (if sev == Low then 1 else 0) + (if sev == High then 1 else 0) + (if sev == High then 1 else 0)
    {
      assert SeverityCount([a], sev) == (if sev == Low then 1 else 0);
      assert SeverityCount([a, b], sev) == SeverityCount([a], sev) + (if sev == High then 1 else 0);
    }
  }

  /** No findings: all-zero counters, the all-zero message and no outcomes. */
  lemma EmptyFindings()
    ensures SeverityCount([], Low) == 0 && SeverityCount([], Medium) == 0
    ensures SeverityCount([], High) == 0 && SeverityCount([], Critical) == 0
    ensures Outcomes([]) == []
    ensures SummaryMessage(0, 0, 0, 0) == "0 LOW, 0 MEDIUM, 0 HIGH, 0 CRITICAL asset violations found"
  {
    assert NatToString(0) == "0";
    ZeroSummaryText();
  }

  // The literal equality of the message is split over three lemmas: proved
  // in one piece, it does not fit within the solver's resource limit.
  lemma ZeroSummaryText()
    ensures "0" + " LOW, " + "0" + " MEDIUM, " + "0" + " HIGH, " + "0" + " CRITICAL asset violations found"
         == "0 LOW, 0 MEDIUM, 0 HIGH, 0 CRITICAL asset violations found"
  {
    ZeroCountsText();
    ZeroTailText();
  }

  lemma ZeroCountsText()
    ensures "0" + " LOW, " + "0" + " MEDIUM, " + "0" + " HIGH, " + "0" == "0 LOW, 0 MEDIUM, 0 HIGH, 0"
  {
    assert "0" + " LOW, " + "0" == "0 LOW, 0";
    assert "0 LOW, 0" + " MEDIUM, " + "0" == "0 LOW, 0 MEDIUM, 0";
  }

  lemma ZeroTailText()
    ensures "0 LOW, 0 MEDIUM, 0 HIGH, 0" + " CRITICAL asset violations found" == "0 LOW, 0 MEDIUM, 0 HIGH, 0 CRITICAL asset violations found"
  {
  }
}
