/** The calls to the IaC validation service: the submission request and its
    retry policy, the completion poll with its heartbeats, and the search for
    the organization among a project's ancestors. Each network exchange is an
    abstract outcome supplied by the caller; each sleep is recorded, not taken. */
module Iacv {
  import opened Common
  import Base64
  import opened Callback

  // ----- Submission request -----

  datatype IacPayload = IacPayload(tfPlan: string)
  datatype RequestBody = RequestBody(parent: string, iac: IacPayload)
  datatype HttpRequest = HttpRequest(url: string, headers: map<string, string>, body: RequestBody)

  /** The headers of every request to the service: JSON content, the bearer
      token, and the project billed for the call. */
  function GcloudRequestHeaders(accessToken: string, projectId: string): (h: map<string, string>)
    ensures h.Keys == {"Content-Type", "Authorization", "X-GFE-SSL", "x-goog-user-project"}
    ensures h["Authorization"] == "Bearer " + accessToken
    ensures h["x-goog-user-project"] == projectId
    ensures h["Content-Type"] == "application/json" && h["X-GFE-SSL"] == "yes"
  {
    map["Content-Type" := "application/json",
        "Authorization" := "Bearer " + accessToken,
        "X-GFE-SSL" := "yes",
        "x-goog-user-project" := projectId]
  }

  /** The organization's location the report is created under. */
  function Parent(orgId: string): string {
    "organizations/" + orgId + "/locations/global"
  }

  /** `_create_iac_validation_request_body`, over the UTF-8 octets of the
      serialised plan: the plan travels base 64 encoded under `iac.tf_plan`. */
  function CreateIacValidationRequestBody(serializedPlan: seq<byte>, orgId: string): (body: RequestBody)
    ensures body.parent == "organizations/" + orgId + "/locations/global"
    ensures Base64.Decode(body.iac.tfPlan) == Some(serializedPlan)
  {
    Base64.DecodeEncode(serializedPlan);
    RequestBody(Parent(orgId), IacPayload(Base64.Encode(serializedPlan)))
  }

  /** The request `validate_iac` posts (on every attempt): the report is
      created under the same parent the body names. */
  function ValidateIacRequest(serializedPlan: seq<byte>, orgId: string, accessToken: string, projectId: string)
    : (req: HttpRequest)
    ensures req.url == ServiceUrl + req.body.parent + "/reports:createIaCValidationReport"
    ensures req.body.parent == Parent(orgId)
    ensures Base64.Decode(req.body.iac.tfPlan) == Some(serializedPlan)
    ensures req.headers == GcloudRequestHeaders(accessToken, projectId)
    ensures "Authorization" in req.headers && req.headers["Authorization"] == "Bearer " + accessToken
  {
    var parent := Parent(orgId);
    HttpRequest(ServiceUrl + parent + "/reports:createIaCValidationReport",
                GcloudRequestHeaders(accessToken, projectId),
                CreateIacValidationRequestBody(serializedPlan, orgId))
  }

  // ----- Retry policy -----

  const RetryableStatusCodes: set<int> := {408, 429, 500, 502, 503, 504}
  const RetryDelays: seq<nat> := [5, 10, 20]
  const MaxAttempts := 4
  const AllRetriesFailed := "All retries failed for IaC Validation API call."

  /** The outcome of one POST: a JSON response with its `name` member, or a
      request exception that may carry a response status. */
  datatype Attempt = Answered(name: Field<string>) | Errored(status: Option<int>, text: string)

  predicate Retryable(a: Attempt) {
    a.Errored? && a.status.Some? && a.status.value in RetryableStatusCodes
  }

  /** What an attempt that is not retried makes the helper return. */
  function AttemptResult(a: Attempt): (r: Call<string>)
    requires !Retryable(a)
    // success exactly when the response has a `name` member
    ensures (r.Returned? && r.status == 200 && r.error.None?) <==> a.Answered? && !a.name.Absent?
    ensures r.Returned? && r.value.Some? ==> a == Answered(Present(r.value.value))
    ensures r.Raised? <==> a == Answered(Absent)
  {
    match a
    case Answered(Present(n)) => Returned(Some(n), 200, None)
    case Answered(Null) => Returned(None, 200, None)
    case Answered(Absent) => Raised("'name'")
    case Errored(s, text) => Returned(None, ErrorStatus(s), Some("Error calling IaC Validation API: " + text))
  }

  lemma DelaysBounded(k: nat)
    requires k <= |RetryDelays|
    ensures Sum(RetryDelays[..k]) <= 35
  {
    if k == 3 {
      assert RetryDelays[..3] == [5, 10, 20];
      assert [5, 10, 20][1..] == [10, 20] && [10, 20][1..] == [20] && [20][1..] == [];
    } else if k == 2 {
      assert RetryDelays[..2] == [5, 10];
      assert [5, 10][1..] == [10] && [10][1..] == [];
    } else if k == 1 {
      assert RetryDelays[..1] == [5];
      assert [5][1..] == [];
    }
  }

  /** How many attempts the retry policy makes: up to and including the
      first one that is not retried, and never more than four. */
  function AttemptsUsed(attempts: seq<Attempt>): (n: nat)
    requires |attempts| >= MaxAttempts
    ensures 1 <= n <= MaxAttempts
    ensures forall i | 0 <= i < n - 1 :: Retryable(attempts[i])
    ensures n < MaxAttempts ==> !Retryable(attempts[n - 1])
  {
    if !Retryable(attempts[0]) then 1
    else if !Retryable(attempts[1]) then 2
    else if !Retryable(attempts[2]) then 3
    else 4
  }

  /** The triple the submission helper answers under the retry policy: the
      outcome of the last attempt made, unless it too was retryable. */
  function RetryOutcome(attempts: seq<Attempt>): (r: Call<string>)
    requires |attempts| >= MaxAttempts
    // the first attempt that is not retried decides the outcome
    ensures forall k | 0 <= k < MaxAttempts && !Retryable(attempts[k]) ::
      (forall i | 0 <= i < k :: Retryable(attempts[i])) ==> r == AttemptResult(attempts[k])
    ensures (forall i | 0 <= i < MaxAttempts :: Retryable(attempts[i])) ==>
      r == Returned(None, 500, Some(AllRetriesFailed))
  {
    var last := attempts[AttemptsUsed(attempts) - 1];
    if Retryable(last) then Returned(None, 500, Some(AllRetriesFailed)) else AttemptResult(last)
  }

  /** Attempts that fail with a retryable status and then an answer with a
      `name`: that name with 200, after one delay per failure (three failures
      wait 5, 10 and 20 seconds). */
  lemma RetriedThenAnswered(attempts: seq<Attempt>, k: nat, n: string)
    requires |attempts| >= MaxAttempts && k < MaxAttempts
    requires forall i | 0 <= i < k :: Retryable(attempts[i])
    requires attempts[k] == Answered(Present(n))
    ensures AttemptsUsed(attempts) == k + 1
    ensures RetryOutcome(attempts) == Returned(Some(n), 200, None)
    ensures k == 3 ==> RetryDelays[..AttemptsUsed(attempts) - 1] == [5, 10, 20]
  {
  }

  /** Four retryable failures: 500 with "All retries failed", and only three
      delays, none after the last attempt. */
  lemma AllAttemptsRetryable(attempts: seq<Attempt>)
    requires |attempts| >= MaxAttempts
    requires forall i | 0 <= i < MaxAttempts :: Retryable(attempts[i])
    ensures AttemptsUsed(attempts) == MaxAttempts
    ensures RetryOutcome(attempts) == Returned(None, 500, Some(AllRetriesFailed))
    ensures RetryDelays[..AttemptsUsed(attempts) - 1] == [5, 10, 20]
  {
  }

  /** `_call_iac_validation_api` over the outcomes of its (at most four)
      attempts. `used` is the number of attempts made and `delays` the sleeps
      taken between them. */
  method CallIacValidationApi(attempts: seq<Attempt>) returns (result: Call<string>, delays: seq<nat>, used: nat)
    requires |attempts| >= MaxAttempts
    ensures 1 <= used <= MaxAttempts
    ensures forall i | 0 <= i < used - 1 :: Retryable(attempts[i])
    ensures delays == RetryDelays[..used - 1]
    ensures Sum(delays) <= 35
    ensures !Retryable(attempts[used - 1]) ==> result == AttemptResult(attempts[used - 1])
    ensures Retryable(attempts[used - 1]) ==> used == MaxAttempts && result == Returned(None, 500, Some(AllRetriesFailed))
    ensures used == AttemptsUsed(attempts) && result == RetryOutcome(attempts)
  {
    delays := [];
    var i := 0;
    while true
      invariant 0 <= i < MaxAttempts
      invariant forall j | 0 <= j < i :: Retryable(attempts[j])
      invariant delays == RetryDelays[..i]
      decreases MaxAttempts - i
    {
      DelaysBounded(i);
      match attempts[i]
      case Answered(name) =>
        used := i + 1;
        match name {
          case Absent =>
            // `response.json()["name"]` raises a KeyError, which is not caught here
            return Raised("'name'"), delays, used;
          case Null =>
            return Returned(None, 200, None), delays, used;
          case Present(n) =>
            return Returned(Some(n), 200, None), delays, used;
        }
      case Errored(status, text) =>
        if status.Some? && status.value in RetryableStatusCodes {
          if i == 3 {
            break;
          }
          delays := delays + [RetryDelays[i]];
          i := i + 1;
        } else {
          used := i + 1;
          var errorMessage := "Error calling IaC Validation API: " + text;
          if status.Some? {
            return Returned(None, status.value, Some(errorMessage)), delays, used;
          }
          return Returned(None, 500, Some(errorMessage)), delays, used;
        }
    }
    DelaysBounded(3);
    used := MaxAttempts;
    result := Returned(None, 500, Some(AllRetriesFailed));
  }

  // ----- Completion poll with heartbeats -----

  const PollInterval: nat := 10

  /** The parsed response of one status check, or a request exception. */
  datatype StatusCheck =
    | Operation(done: Field<bool>, response: Field<Report>)
    | CheckFailed(status: Option<int>, text: string)

  /** What the environment answers in one iteration of the poll loop: the
      PATCH exchange of the heartbeat, then the status check (not consulted
      when the heartbeat failed). */
  datatype Round = Round(heartbeat: Transport, check: StatusCheck)

  /** What the poll loop does, in order. */
  datatype Event = Heartbeat(doc: TaskResultDocument) | Check | Sleep(seconds: nat)

  /** The result of polling: the loop stopped with a result, or it was still
      polling when the environment's answers ran out. */
  datatype Poll<+T> = Stopped(outcome: Call<T>) | StillPolling

  /** A `done` member that is present and falsy: `false` or `null`. */
  predicate NotDone(done: Field<bool>) {
    done == Present(false) || done.Null?
  }

  /** An iteration after which the loop goes round again. */
  predicate Continues(r: Round) {
    SendTerraformCallback(r.heartbeat) == 200 && r.check.Operation? && NotDone(r.check.done)
  }

  /** The index of the round in which the loop stops (|trace| if none). */
  function StopIndex(trace: seq<Round>): (k: nat)
    ensures k <= |trace|
    ensures forall j | 0 <= j < k :: Continues(trace[j])
    ensures k < |trace| ==> !Continues(trace[k])
  {
    if trace == [] then 0
    else if !Continues(trace[0]) then 0
    else 1 + StopIndex(trace[1..])
  }

  /** What the loop returns from the round in which it stops. */
  function RoundOutcome(r: Round): (o: Call<Report>)
    requires !Continues(r)
    // a report is returned exactly when the heartbeat was accepted and the
    // operation is done with a `response` member
    ensures (o.Returned? && o.status == 200 && o.error.None?) <==>
      SendTerraformCallback(r.heartbeat) == 200 && r.check.Operation? && r.check.done == Present(true)
      && !r.check.response.Absent?
    ensures o.Returned? && o.value.Some? ==> r.check.Operation? && r.check.response == Present(o.value.value)
  {
    var code := SendTerraformCallback(r.heartbeat);
    if code != 200 then Returned(None, code, Some("Error sending callback request"))
    else match r.check
      case CheckFailed(s, text) => Returned(None, ErrorStatus(s), Some("Error fetching IaC Validation report: " + text))
      case Operation(Absent, _) => Raised("'done'")
      case Operation(_, Absent) => Raised("'response'")
      case Operation(_, Null) => Returned(None, 200, None)
      case Operation(_, Present(report)) => Returned(Some(report), 200, None)
  }

  /** k iterations that found the operation not done. */
  function Waiting(k: nat): (log: seq<Event>)
    ensures |log| == 3 * k
  {
    if k == 0 then [] else Waiting(k - 1) + [Heartbeat(RunningDocument), Check, Sleep(PollInterval)]
  }

  /** The events of the round in which the loop stops. */
  function FinalEvents(r: Round): seq<Event> {
    if SendTerraformCallback(r.heartbeat) != 200 then [Heartbeat(RunningDocument)]
    else [Heartbeat(RunningDocument), Check]
  }

  /** The result of polling over `trace`: the outcome of the round in which
      the loop stops, or still polling when every round continued. */
  function PollResult(trace: seq<Round>): (p: Poll<Report>)
    ensures p == StillPolling <==> forall j | 0 <= j < |trace| :: Continues(trace[j])
    ensures forall k | 0 <= k < |trace| && !Continues(trace[k]) ::
      (forall j | 0 <= j < k :: Continues(trace[j])) ==> p == Stopped(RoundOutcome(trace[k]))
  {
    var k := StopIndex(trace);
    if k == |trace| then StillPolling else Stopped(RoundOutcome(trace[k]))
  }

  /** The URL the status checks read: the operation handle the submission
      returned, formatted into the service URL (a missing handle reads "None"). */
  function StatusUrl(operationId: Option<string>): (url: string)
    ensures operationId.Some? ==> url == ServiceUrl + operationId.value
    ensures operationId.None? ==> url == ServiceUrl + "None"
  {
    ServiceUrl + operationId.GetOr("None")
  }

  /** `fetch_iac_validation_report` over the environment's answers `trace`:
      every iteration sends a heartbeat, checks the operation, and sleeps
      10 seconds when it is not done. */
  method FetchIacValidationReport(trace: seq<Round>) returns (result: Poll<Report>, log: seq<Event>)
    ensures var k := StopIndex(trace);
      && (k == |trace| ==> result == StillPolling && log == Waiting(k))
      && (k < |trace| ==> result == Stopped(RoundOutcome(trace[k])) && log == Waiting(k) + FinalEvents(trace[k]))
  {
    log := [];
    var i := 0;
    while i < |trace|
      invariant 0 <= i <= |trace|
      invariant forall j | 0 <= j < i :: Continues(trace[j])
      invariant log == Waiting(i)
    {
      // the RUNNING document is always built, so the "cannot be built" exit is never taken
      var callbackRequest := CreateTaskResultCallbackRequest(None, Some(Running));
      var callbackStatusCode := SendTerraformCallback(trace[i].heartbeat);
      log := log + [Heartbeat(callbackRequest.value)];
      if callbackStatusCode != 200 {
        return Stopped(Returned(None, callbackStatusCode, Some("Error sending callback request"))), log;
      }
      log := log + [Check];
      match trace[i].check
      case CheckFailed(status, text) =>
        var errorMessage := "Error fetching IaC Validation report: " + text;
        if status.Some? {
          return Stopped(Returned(None, status.value, Some(errorMessage))), log;
        }
        return Stopped(Returned(None, 500, Some(errorMessage))), log;
      case Operation(done, response) =>
        if done.Absent? {
          // `operation_details["done"]` raises a KeyError, which is not caught here
          return Stopped(Raised("'done'")), log;
        }
        if done.Present? && done.value {
          match response {
            case Absent =>
              return Stopped(Raised("'response'")), log;
            case Null =>
              return Stopped(Returned(None, 200, None)), log;
            case Present(report) =>
              return Stopped(Returned(Some(report), 200, None)), log;
          }
        }
        assert NotDone(done);
        log := log + [Sleep(PollInterval)];
        i := i + 1;
    }
    result := StillPolling;
  }

  function Heartbeats(log: seq<Event>): nat {
    if log == [] then 0 else (if log[0].Heartbeat? then 1 else 0) + Heartbeats(log[1..])
  }

  function Checks(log: seq<Event>): nat {
    if log == [] then 0 else (if log[0] == Check then 1 else 0) + Checks(log[1..])
  }

  /** The durations of the sleeps, in order. */
  function Sleeps(log: seq<Event>): seq<nat> {
    if log == [] then [] else (if log[0].Sleep? then [log[0].seconds] else []) + Sleeps(log[1..])
  }

  lemma CountsAppend(a: seq<Event>, b: seq<Event>)
    ensures Heartbeats(a + b) == Heartbeats(a) + Heartbeats(b)
    ensures Checks(a + b) == Checks(a) + Checks(b)
    ensures Sleeps(a + b) == Sleeps(a) + Sleeps(b)
  {
    HeartbeatsAppend(a, b);
    ChecksAppend(a, b);
    SleepsAppend(a, b);
  }

  lemma {:induction false} HeartbeatsAppend(a: seq<Event>, b: seq<Event>)
    ensures Heartbeats(a + b) == Heartbeats(a) + Heartbeats(b)
    decreases |a|
  {
    if a == [] {
      assert a + b == b;
    } else {
      HeartbeatsAppend(a[1..], b);
      assert (a + b)[1..] == a[1..] + b;
    }
  }

  lemma {:induction false} ChecksAppend(a: seq<Event>, b: seq<Event>)
    ensures Checks(a + b) == Checks(a) + Checks(b)
    decreases |a|
  {
    if a == [] {
      assert a + b == b;
    } else {
      ChecksAppend(a[1..], b);
      assert (a + b)[1..] == a[1..] + b;
    }
  }

  lemma {:induction false} SleepsAppend(a: seq<Event>, b: seq<Event>)
    ensures Sleeps(a + b) == Sleeps(a) + Sleeps(b)
    decreases |a|
  {
    if a == [] {
      assert a + b == b;
    } else {
      SleepsAppend(a[1..], b);
      assert (a + b)[1..] == a[1..] + b;
      var head := if a[0].Sleep? then [a[0].seconds] else [];
      calc {
        Sleeps(a + b);
        head + Sleeps(a[1..] + b);
        head + (Sleeps(a[1..]) + Sleeps(b));
        (head + Sleeps(a[1..])) + Sleeps(b);
      }
    }
  }

  /** k copies of x (the sleeps of k waiting rounds). */
  function Repeat(x: nat, k: nat): (s: seq<nat>)
    ensures |s| == k && forall i | 0 <= i < k :: s[i] == x
  {
    if k == 0 then [] else Repeat(x, k - 1) + [x]
  }

  lemma RoundCounts()
    ensures var round := [Heartbeat(RunningDocument), Check, Sleep(PollInterval)];
      Heartbeats(round) == 1 && Checks(round) == 1 && Sleeps(round) == [PollInterval]
  {
    var round := [Heartbeat(RunningDocument), Check, Sleep(PollInterval)];
    assert round[1..] == [Check, Sleep(PollInterval)];
    assert round[1..][1..] == [Sleep(PollInterval)];
    assert round[1..][1..][1..] == [];
    var last := [Sleep(PollInterval)];
    assert Heartbeats(last) == 0 && Checks(last) == 0 && Sleeps(last) == [PollInterval];
    assert Heartbeats(round[1..]) == 0 && Checks(round[1..]) == 1 && Sleeps(round[1..]) == [PollInterval];
  }

  /** k not-done iterations send k heartbeats, make k checks and sleep
      10 seconds k times. */
  lemma {:induction false} WaitingCounts(k: nat)
    ensures Heartbeats(Waiting(k)) == k && Checks(Waiting(k)) == k
    ensures Sleeps(Waiting(k)) == Repeat(PollInterval, k)
  {
    if k > 0 {
      WaitingCounts(k - 1);
      RoundCounts();
      CountsAppend(Waiting(k - 1), [Heartbeat(RunningDocument), Check, Sleep(PollInterval)]);
    }
  }

  /** Each status check comes straight after a heartbeat with the "running" document. */
  predicate HeartbeatBeforeEachCheck(log: seq<Event>) {
    forall i | 0 <= i < |log| && log[i] == Check :: 0 < i && log[i - 1] == Heartbeat(RunningDocument)
  }

  lemma HeartbeatBeforeEachCheckAppend(a: seq<Event>, b: seq<Event>)
    requires HeartbeatBeforeEachCheck(a) && HeartbeatBeforeEachCheck(b)
    requires b != [] ==> b[0] != Check
    ensures HeartbeatBeforeEachCheck(a + b)
  {
    var log := a + b;
    forall i | 0 <= i < |log| && log[i] == Check
      ensures 0 < i && log[i - 1] == Heartbeat(RunningDocument)
    {
      if i < |a| {
        assert a[i] == Check;
      } else {
        assert b[i - |a|] == Check;
      }
    }
  }

  lemma {:induction false} WaitingHeartbeatFirst(k: nat)
    ensures HeartbeatBeforeEachCheck(Waiting(k))
  {
    if k > 0 {
      WaitingHeartbeatFirst(k - 1);
      HeartbeatBeforeEachCheckAppend(Waiting(k - 1), [Heartbeat(RunningDocument), Check, Sleep(PollInterval)]);
    }
  }

  /** In every run of the loop, each status check is immediately preceded by
      a heartbeat with the "running" document. */
  lemma PollLogHeartbeatFirst(trace: seq<Round>)
    ensures var k := StopIndex(trace);
      HeartbeatBeforeEachCheck(Waiting(k))
      && (k < |trace| ==> HeartbeatBeforeEachCheck(Waiting(k) + FinalEvents(trace[k])))
  {
    var k := StopIndex(trace);
    WaitingHeartbeatFirst(k);
    if k < |trace| {
      HeartbeatBeforeEachCheckAppend(Waiting(k), FinalEvents(trace[k]));
    }
  }

  /** The loop stops in the first round that does not continue. */
  lemma StopsAtFirstFinalRound(trace: seq<Round>, k: nat)
    requires k < |trace| && !Continues(trace[k])
    requires forall j | 0 <= j < k :: Continues(trace[j])
    ensures StopIndex(trace) == k
  {
  }

  /** k not-done checks followed by a done one: k + 1 heartbeats, k + 1
      checks, k sleeps of 10 seconds, and the operation's response with 200. */
  lemma PollScenario(trace: seq<Round>, k: nat, report: Report)
    requires k < |trace|
    requires forall j | 0 <= j < k :: Continues(trace[j])
    requires SendTerraformCallback(trace[k].heartbeat) == 200
    requires trace[k].check == Operation(Present(true), Present(report))
    ensures !Continues(trace[k]) && RoundOutcome(trace[k]) == Returned(Some(report), 200, None)
    ensures var log := Waiting(k) + FinalEvents(trace[k]);
      && Heartbeats(log) == k + 1 && Checks(log) == k + 1 && Sleeps(log) == Repeat(PollInterval, k)
  {
    var final := FinalEvents(trace[k]);
    WaitingCounts(k);
    CountsAppend(Waiting(k), final);
    assert final == [Heartbeat(RunningDocument), Check];
    assert final[1..] == [Check] && final[1..][1..] == [];
    assert Heartbeats([Check]) == 0 && Checks([Check]) == 1 && Sleeps([Check]) == [];
    assert Heartbeats(final) == 1 && Checks(final) == 1 && Sleeps(final) == [];
    assert Repeat(PollInterval, k) + [] == Repeat(PollInterval, k);
  }

  /** A first heartbeat that is not accepted stops the loop before any status check. */
  lemma FirstHeartbeatRejected(trace: seq<Round>)
    requires |trace| > 0 && SendTerraformCallback(trace[0].heartbeat) != 200
    ensures !Continues(trace[0])
    ensures var code := SendTerraformCallback(trace[0].heartbeat);
      RoundOutcome(trace[0]) == Returned(None, code, Some("Error sending callback request"))
    ensures Waiting(0) + FinalEvents(trace[0]) == [Heartbeat(RunningDocument)]
    ensures Checks(Waiting(0) + FinalEvents(trace[0])) == 0
  {
    assert Waiting(0) + FinalEvents(trace[0]) == [Heartbeat(RunningDocument)];
  }

  // ----- Organization lookup -----

  /** The `resourceId` of an ancestor; `kind` is its `type`. */
  datatype ResourceId = ResourceId(kind: Field<string>, id: Option<string>)
  datatype Ancestor = Ancestor(resourceId: Option<ResourceId>)

  /** The ancestry response: a failed request (or error status), or the JSON
      object with its `ancestor` member. */
  datatype AncestryResponse = AncestryFailed | Ancestry(ancestor: Field<seq<Ancestor>>)

  /** An ancestor whose `type` can be read (it may be `null`). */
  predicate HasKind(a: Ancestor) {
    a.resourceId.Some? && !a.resourceId.value.kind.Absent?
  }

  predicate IsOrganization(a: Ancestor) {
    HasKind(a) && a.resourceId.value.kind == Present("organization")
  }

  /** Position i holds the first organization, with its id, and every
      ancestor before it is readable and not an organization. */
  predicate OrganizationAt(ancestors: seq<Ancestor>, i: int) {
    && 0 <= i < |ancestors|
    && IsOrganization(ancestors[i]) && ancestors[i].resourceId.value.id.Some?
    && forall j | 0 <= j < i :: HasKind(ancestors[j]) && !IsOrganization(ancestors[j])
  }

  /** The ancestors searched: none when the request failed; an absent list
      is empty, and a `null` one cannot be searched, so it holds no
      organization either. */
  function Ancestors(reply: AncestryResponse): seq<Ancestor> {
    if reply.Ancestry? && reply.ancestor.Present? then reply.ancestor.value else []
  }

  /** The first organization is unique: no other position qualifies. */
  lemma FirstOrganizationUnique(ancestors: seq<Ancestor>, i: int)
    requires OrganizationAt(ancestors, i)
    ensures forall j :: OrganizationAt(ancestors, j) ==> j == i
  {
  }

  /** The id of the organization found at position i. */
  function OrganizationId(ancestors: seq<Ancestor>, i: int): string
    requires OrganizationAt(ancestors, i)
  {
    ancestors[i].resourceId.value.id.value
  }

  /** The search of `get_organization_id` over the ancestry response: the id
      of the first ancestor of type "organization"; None when the request
      failed, when there is none, when the list is `null`, or when an
      ancestor it reads lacks a field. */
  method GetOrganizationId(reply: AncestryResponse) returns (orgId: Option<string>)
    ensures reply.AncestryFailed? ==> orgId == None
    ensures orgId.Some? ==> (reply.Ancestry? &&
      exists i :: OrganizationAt(Ancestors(reply), i) && orgId.value == OrganizationId(Ancestors(reply), i))
    ensures orgId.None? ==> (forall i :: !OrganizationAt(Ancestors(reply), i))
  {
    if reply.AncestryFailed? {
      return None;
    }
    if reply.ancestor.Null? {
      // iterating over `None` raises; the lookup answers None
      return None;
    }
    var ancestors := if reply.ancestor.Present? then reply.ancestor.value else [];
    assert ancestors == Ancestors(reply);
    var i := 0;
    while i < |ancestors|
      invariant 0 <= i <= |ancestors|
      invariant forall j | 0 <= j < i :: HasKind(ancestors[j]) && !IsOrganization(ancestors[j])
    {
      var ancestor := ancestors[i];
      if ancestor.resourceId.None? || ancestor.resourceId.value.kind.Absent? {
        // `ancestor["resourceId"]["type"]` raises; the lookup answers None
        return None;
      }
      if ancestor.resourceId.value.kind == Present("organization") {
        if ancestor.resourceId.value.id.None? {
          return None;
        }
        assert OrganizationAt(ancestors, i);
        orgId := ancestor.resourceId.value.id;
        assert orgId.value == OrganizationId(ancestors, i);
        return;
      }
      i := i + 1;
    }
    return None;
  }
}
