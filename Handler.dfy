/** The run-task webhook `analyze_terraform_plan`: a fixed sequence of
    steps, each of which may end the request early with its own HTTP status.
    The collaborators (credentials, project and organization lookups, secret
    store, plan download, the validation service, the callback endpoint)
    are the environment's answers, supplied as inputs. */
module Handler {
  import opened Common
  import opened Callback
  import opened Iacv
  import opened Validations

  /** An incoming request: its headers, its parsed body and its raw octets. */
  datatype Request = Request(headers: map<string, string>, body: Body, rawBody: seq<byte>)

  /** What each collaborator answers when the handler asks it.
      `plan` is the downloaded plan as its serialised UTF-8 octets and
      `planStatus` the status of the download; `attempts` are the outcomes of
      the submission's POSTs, `rounds` those of the completion poll's
      iterations, and `finalCallback` that of the closing PATCH. */
  datatype Environment = Environment(
    accessToken: Option<string>,
    projectId: Option<string>,
    projectNumber: Option<string>,
    ancestry: AncestryResponse,
    secrets: map<string, seq<byte>>,
    hmac: (seq<byte>, seq<byte>) -> seq<byte>,
    plan: seq<byte>,
    planStatus: int,
    attempts: seq<Attempt>,
    rounds: seq<Round>,
    finalCallback: Transport)

  /** What the handler hands back to the web framework: a response with a
      body and status, a bare status code (the success path), or nothing
      when the completion poll never ends. */
  datatype Reply = Response(body: string, status: int) | BareStatus(code: int) | NoReply

  /** The collaborator steps the handler takes, in the order it takes them. */
  datatype Step =
    | Credentials
    | ProjectNumber
    | Organization
    | Signature
    | PlanFetch
    | Submission(request: HttpRequest, submitted: Call<string>)
    | Poll(statusUrl: string, polled: Poll<Report>)
    | FinalCallback(document: Option<TaskResultDocument>)

  /** The steps taken are a prefix of the fixed order: none is skipped,
      repeated or taken out of turn. */
  predicate InOrder(log: seq<Step>) {
    && |log| <= 8
    && (|log| > 0 ==> log[0] == Credentials)
    && (|log| > 1 ==> log[1] == ProjectNumber)
    && (|log| > 2 ==> log[2] == Organization)
    && (|log| > 3 ==> log[3] == Signature)
    && (|log| > 4 ==> log[4] == PlanFetch)
    && (|log| > 5 ==> log[5].Submission?)
    && (|log| > 6 ==> log[6].Poll?)
    && (|log| > 7 ==> log[7].FinalCallback?)
  }

  /** A helper's triple that lets the handler go on: status 200 and no error. */
  predicate Succeeded<T>(c: Call<T>) {
    c.Returned? && c.status == 200 && c.error.None?
  }

  const ExceptionPrefix := "Task errored out with exception: "

  /** The response for a helper's outcome that stops the handler: its own
      status and message; 500 when it says 200 but carries an error; 500 with
      the exception's text when it raised. */
  function StepFailure<T>(c: Call<T>): (reply: Reply)
    requires !Succeeded(c)
    ensures reply.Response?
    ensures c.Returned? && c.status != 200 ==> reply == Response(c.error.GetOr(""), c.status)
    ensures c.Returned? && c.status == 200 ==> reply == Response(c.error.value, 500)
    ensures c.Raised? ==> reply == Response(ExceptionPrefix + c.exception, 500)
  {
    match c
    case Raised(e) => Response(ExceptionPrefix + e, 500)
    case Returned(_, status, error) =>
      // a response built from a missing message has an empty body
      if status != 200 then Response(error.GetOr(""), status) else Response(error.value, 500)
  }

  /** The ancestry names an organization the lookup finds. */
  ghost predicate OrganizationFound(env: Environment) {
    exists i :: OrganizationAt(Ancestors(env.ancestry), i)
  }

  /** The id of the organization the lookup finds (the first one, which is
      unique by `FirstOrganizationUnique`). */
  ghost function FoundOrganizationId(env: Environment): string
    requires OrganizationFound(env)
  {
    var i :| OrganizationAt(Ancestors(env.ancestry), i);
    OrganizationId(Ancestors(env.ancestry), i)
  }

  /** The lookups that must all succeed before the signature is checked. */
  ghost predicate LookupsSucceeded(env: Environment) {
    env.accessToken.Some? && env.projectId.Some? && env.projectNumber.Some? && OrganizationFound(env)
  }

  /** `request` is the one the handler submits once the lookups succeed: the
      downloaded plan, for the organization found, with the service
      account's token and project. */
  ghost predicate SubmitsPlan(env: Environment, request: HttpRequest) {
    && LookupsSucceeded(env)
    && request == ValidateIacRequest(env.plan, FoundOrganizationId(env), env.accessToken.value, env.projectId.value)
  }

  /** A request that passes validation and is not a test: the lookups run. */
  predicate Proceeds(req: Request) {
    ValidateRequest(req.headers, req.body).0 && !IsTestStage(req.body)
  }

  /** The poll and its outcome succeeded: the loop stopped with a report. */
  predicate PollSucceeded(p: Poll<Report>) {
    p.Stopped? && Succeeded(p.outcome)
  }

  predicate IsTestStage(body: Body) {
    body.Object? && "stage" in body.fields && body.fields["stage"] == "test"
  }

  /** The steps of `analyze_terraform_plan` up to and including the signature
      check. `refusal` is the response that ends the request here, if any;
      otherwise `organizationId` is the organization found. */
  method Admit(req: Request, env: Environment) returns (refusal: Option<Reply>, log: seq<Step>, organizationId: string)
    ensures InOrder(log) && |log| <= 4
    // an invalid request is refused before any collaborator is asked
    ensures var v := ValidateRequest(req.headers, req.body);
      !v.0 ==> refusal == Some(Response(v.1.value, 400)) && log == []
    // a test-stage request is answered without any collaborator
    ensures ValidateRequest(req.headers, req.body).0 ==>
      (IsTestStage(req.body) <==> log == []) &&
      (IsTestStage(req.body) ==> refusal == Some(Response("", 200)))
    // the lookups, in order, each end the request at the first failure
    ensures |log| == 1 ==> refusal == Some(Response(
      if env.accessToken.None? then "Failed to obtain access token" else "Failed to fetch project ID", 500))
    ensures |log| >= 1 ==> (|log| == 1 <==> env.accessToken.None? || env.projectId.None?)
    ensures |log| >= 2 ==> (|log| == 2 <==> env.projectNumber.None?)
    ensures |log| == 2 ==> refusal == Some(Response("Failed to fetch project number", 500))
    ensures |log| >= 3 ==> (|log| == 3 <==> !OrganizationFound(env))
    ensures |log| == 3 ==> refusal == Some(Response("Internal server error", 500))
    // the signature is checked exactly when every lookup has succeeded
    ensures |log| == 4 <==> Proceeds(req) && LookupsSucceeded(env)
    ensures |log| == 4 ==> (refusal.Some? <==>
      !ValidateHmacSignature(req.headers, env.secrets, env.projectNumber.value, req.rawBody, env.hmac))
    ensures |log| == 4 && refusal.Some? ==> refusal == Some(Response("Invalid HMAC signature", 401))
    ensures refusal.None? ==> |log| == 4 && exists i :: (OrganizationAt(Ancestors(env.ancestry), i) &&
      organizationId == OrganizationId(Ancestors(env.ancestry), i))
  {
    log, organizationId := [], "";
    var valid := ValidateRequest(req.headers, req.body);
    if !valid.0 {
      return Some(Response(valid.1.value, 400)), log, organizationId;
    }
    ValidIff(req.headers, req.body);
    var payload := req.body.fields;
    assert RequiredBodyFields[0] == "stage";
    if payload["stage"] == "test" {
      return Some(Response("", 200)), log, organizationId;
    }

    log := [Credentials];
    if env.accessToken.None? {
      return Some(Response("Failed to obtain access token", 500)), log, organizationId;
    }
    if env.projectId.None? {
      return Some(Response("Failed to fetch project ID", 500)), log, organizationId;
    }

    log := [Credentials, ProjectNumber];
    if env.projectNumber.None? {
      return Some(Response("Failed to fetch project number", 500)), log, organizationId;
    }

    log := [Credentials, ProjectNumber, Organization];
    var found := GetOrganizationId(env.ancestry);
    if found.None? {
      return Some(Response("Internal server error", 500)), log, organizationId;
    }
    organizationId := found.value;

    log := [Credentials, ProjectNumber, Organization, Signature];
    if !ValidateHmacSignature(req.headers, env.secrets, env.projectNumber.value, req.rawBody, env.hmac) {
      return Some(Response("Invalid HMAC signature", 401)), log, organizationId;
    }
    refusal := None;
  }

  /** The steps of `analyze_terraform_plan` after the signature check: the
      plan download, the submission, the completion poll and the closing
      callback. `log` holds these steps only. */
  method Process(env: Environment, organizationId: string) returns (reply: Reply, log: seq<Step>)
    requires env.accessToken.Some? && env.projectId.Some?
    requires |env.attempts| >= MaxAttempts
    ensures 1 <= |log| <= 4 && log[0] == PlanFetch
    ensures |log| > 1 ==> log[1].Submission?
    ensures |log| > 2 ==> log[2].Poll?
    ensures |log| > 3 ==> log[3].FinalCallback?
    // the plan download, the submission and the poll report their own failures
    ensures |log| == 1 ==> env.planStatus != 200 && reply == Response("Failed to fetch plan file", env.planStatus)
    ensures |log| > 1 ==> env.planStatus == 200
    ensures |log| > 1 ==>
      log[1].request == ValidateIacRequest(env.plan, organizationId, env.accessToken.value, env.projectId.value)
    // the submission's outcome is the retry policy's over the attempts
    ensures |log| > 1 ==> log[1].submitted == RetryOutcome(env.attempts)
    ensures |log| == 2 ==> !Succeeded(log[1].submitted) && reply == StepFailure(log[1].submitted)
    ensures |log| > 2 ==> Succeeded(log[1].submitted)
    // the poll reads the handle the submission returned, over the rounds
    ensures |log| > 2 ==> log[2].statusUrl == StatusUrl(log[1].submitted.value)
    ensures |log| > 2 ==> log[2].polled == PollResult(env.rounds)
    ensures |log| == 3 ==> match log[2].polled
      case StillPolling => reply == NoReply
      case Stopped(c) => !Succeeded(c) && reply == StepFailure(c)
    // on success the closing callback carries the final document of the
    // report, and the handler answers with that callback's status
    ensures |log| == 4 ==>
      && PollSucceeded(log[2].polled)
      && log[3].document == FinalDocument(log[2].polled.outcome.value)
      && reply == BareStatus(SendTerraformCallback(env.finalCallback))
  {
    log := [PlanFetch];
    if env.planStatus != 200 {
      return Response("Failed to fetch plan file", env.planStatus), log;
    }

    var request := ValidateIacRequest(env.plan, organizationId, env.accessToken.value, env.projectId.value);
    var submitted, _, _ := CallIacValidationApi(env.attempts);
    log := [PlanFetch, Submission(request, submitted)];
    if !Succeeded(submitted) {
      return StepFailure(submitted), log;
    }

    var statusUrl := StatusUrl(submitted.value);
    var polled, _ := FetchIacValidationReport(env.rounds);
    log := [PlanFetch, Submission(request, submitted), Poll(statusUrl, polled)];
    if polled.StillPolling? {
      // the poll loop never returns, so the request is never answered
      return NoReply, log;
    }
    if !Succeeded(polled.outcome) {
      return StepFailure(polled.outcome), log;
    }

    var document := CreateTaskResultCallbackRequest(polled.outcome.value, None);
    log := [PlanFetch, Submission(request, submitted), Poll(statusUrl, polled), FinalCallback(document)];
    return BareStatus(SendTerraformCallback(env.finalCallback)), log;
  }

  /** `analyze_terraform_plan`. `log` lists the collaborator steps taken;
      each step is taken exactly when every step before it succeeded. */
  method AnalyzeTerraformPlan(req: Request, env: Environment) returns (reply: Reply, log: seq<Step>)
    requires |env.attempts| >= MaxAttempts
    ensures InOrder(log)
    // validation and the test stage
    ensures var v := ValidateRequest(req.headers, req.body);
      !v.0 ==> reply == Response(v.1.value, 400) && log == []
    ensures ValidateRequest(req.headers, req.body).0 ==>
      (IsTestStage(req.body) <==> log == []) &&
      (IsTestStage(req.body) ==> reply == Response("", 200))
    // the lookups
    ensures |log| >= 1 ==> (|log| == 1 <==> env.accessToken.None? || env.projectId.None?)
    ensures |log| == 1 ==>
      reply == Response(if env.accessToken.None? then "Failed to obtain access token" else "Failed to fetch project ID", 500)
    ensures |log| >= 2 ==> (|log| == 2 <==> env.projectNumber.None?)
    ensures |log| == 2 ==> reply == Response("Failed to fetch project number", 500)
    ensures |log| >= 3 ==> (|log| == 3 <==> !OrganizationFound(env))
    ensures |log| == 3 ==> reply == Response("Internal server error", 500)
    // the signature
    ensures |log| >= 4 <==> Proceeds(req) && LookupsSucceeded(env)
    ensures |log| >= 4 ==>
      (|log| == 4 <==> !ValidateHmacSignature(req.headers, env.secrets, env.projectNumber.value, req.rawBody, env.hmac))
    ensures |log| == 4 ==> reply == Response("Invalid HMAC signature", 401)
    // the plan download
    ensures |log| >= 5 ==> (|log| == 5 <==> env.planStatus != 200)
    ensures |log| == 5 ==> reply == Response("Failed to fetch plan file", env.planStatus)
    // the submission, for the organization found
    ensures |log| > 5 ==> SubmitsPlan(env, log[5].request)
    ensures |log| > 5 ==> log[5].submitted == RetryOutcome(env.attempts)
    ensures |log| > 5 ==> (|log| == 6 <==> !Succeeded(RetryOutcome(env.attempts)))
    ensures |log| == 6 ==> !Succeeded(RetryOutcome(env.attempts)) && reply == StepFailure(RetryOutcome(env.attempts))
    // the poll, at the handle the submission returned
    ensures |log| > 6 ==> log[6].statusUrl == StatusUrl(RetryOutcome(env.attempts).value)
    ensures |log| > 6 ==> log[6].polled == PollResult(env.rounds)
    ensures |log| > 6 ==> (|log| == 7 <==> !PollSucceeded(PollResult(env.rounds)))
    ensures |log| == 7 ==> match PollResult(env.rounds)
      case StillPolling => reply == NoReply
      case Stopped(c) => !Succeeded(c) && reply == StepFailure(c)
    // the closing callback
    ensures |log| == 8 ==>
      && PollSucceeded(PollResult(env.rounds))
      && log[7].document == FinalDocument(PollResult(env.rounds).outcome.value)
      && reply == BareStatus(SendTerraformCallback(env.finalCallback))
  {
    var refusal, admitted, organizationId := Admit(req, env);
    if refusal.Some? {
      return refusal.value, admitted;
    }
    ghost var i :| OrganizationAt(Ancestors(env.ancestry), i) &&
      organizationId == OrganizationId(Ancestors(env.ancestry), i);
    FirstOrganizationUnique(Ancestors(env.ancestry), i);
    assert organizationId == FoundOrganizationId(env);
    var processed;
    reply, processed := Process(env, organizationId);
    log := admitted + processed;
    assert |admitted| == 4 && log[4] == processed[0];
    assert |processed| > 1 ==> log[5] == processed[1];
    assert |processed| > 2 ==> log[6] == processed[2];
    assert |processed| > 3 ==> log[7] == processed[3];
  }
}
