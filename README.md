# Run-task webhook for IaC validation — Dafny model

This project models the webhook that a Terraform run platform calls at the
post-plan stage of a run. The handler (`analyze_terraform_plan`) does the following:

- checks that the request carries the signature header and the five required body fields;
- answers a `test` stage request at once;
- looks up the cloud credentials, the project number and the organization;
- authenticates the request by an HMAC-SHA512 signature of the raw body;
- downloads the plan;
- submits the plan, base 64 encoded, to the IaC validation service with a fixed retry policy;
- polls the long-running operation, sending a "running" heartbeat callback before every status check;
- turns the finished report into a task-result document;
- sends that document back to the platform.

Modules, one per source file of the core plus shared values:

- `Common` holds `Option`, the `(value, status, error)` triple the helpers
  return (`Call`), the outcome of one HTTP exchange (`Transport`), and the decimal
  rendering of counters.
- `Base64` is section 4 of RFC 4648 (standard alphabet, `=` padding), with
  a decoder and the round trip proved.
- `Hex` is the lowercase hexadecimal rendering of a digest, which is injective.
- `Callback` models `src/callback.py`:
  - the transformer from report to document, as a method with a loop that
    is proved against the specification functions `SeverityCount`,
    `Outcomes` and `SummaryMessage`;
  - the status returned by the callback PATCH.
- `Iacv` models `src/iacv.py`:
  - the request headers and body;
  - the retry loop, as a method over the outcomes of its attempts;
  - the poll loop, as a method over the outcomes of its rounds, proved
    against `StopIndex`, `RoundOutcome` and `Waiting`;
  - the organization search over the ancestry response.
- `Validations` models `validations.py`: the request check, and the signature
  check with HMAC as a function-valued parameter.
- `Handler` models `src/main.py`. Each collaborator's answer is an input, the
  handler's reply is an output, and the steps it takes form a log. The one
  handler function is written as two methods, split at the signature check:
  `Admit` and `Process`. `AnalyzeTerraformPlan` composes them.

Every network exchange, the secret store, the credentials and the plan
download are inputs (`Environment`, `Transport`, `Attempt`, `Round`,
`AncestryResponse`). Sleeps are recorded as events or delays and are not
taken.

Where the following could be read otherwise, the model follows the code:

- A report whose `violations` list is present but empty is FAILED. Only an
  absent or null list is PASSED (`src/callback.py:43-47`).
- A submission response without `name`, or a status response without
  `done` or `response`, raises a `KeyError` that escapes the helper. The
  handler's catch-all turns it into a 500 with the exception text. It is
  not an error triple. It is modelled as `Raised`.
- A final report that cannot be transformed still gets a callback, with an
  empty document (`src/main.py:94-101`).
- A JSON member can be absent, present with `null`, or present with a value
  (`Field`). Indexing an absent member raises; a `null` member is read as
  Python's `None`:
  - a submission response whose `name` is `null` is a success with no
    handle, and the status checks then go to the service URL ending in
    `None` (`src/iacv.py:111`, `src/iacv.py:188`);
  - a `done` that is `null` is falsy, so the poll continues
    (`src/iacv.py:200`);
  - a `response` that is `null` gives a 200 with no report, and the final
    callback is then sent with no document (`src/iacv.py:205-206`);
  - a report whose `name` is `null` gets a url ending in `None`
    (`src/callback.py:83`);
  - a `null` ancestor list, or an ancestor whose `type` is `null`, yields
    no organization there (`src/iacv.py:60-62`).

## Model

| member | source | states |
|---|---|---|
| Common.ErrorStatus | src/callback.py:120-124 | a request exception reports the status of its response when it has one, and 500 otherwise |
| Common.FieldText | src/callback.py:83 | a string member is formatted as its value, and a `null` one as "None" |
| Common.NatToStringRoundTrip | src/callback.py:82 | the decimal rendering of a counter in the summary message can be read back to the counter |
| Common.NatToStringInjective | src/callback.py:82 | distinct counters render to distinct digit strings |
| Base64.Encode | src/iacv.py:84 | the encoding has 4 characters per started 3-octet block |
| Base64.IndexCharRoundTrip | src/iacv.py:84 | each 6-bit group maps to an alphabet character that decodes back to the group |
| Base64.BlockRoundTrip | src/iacv.py:84 | a full 3-octet block decodes back to its octets |
| Base64.OneOctetRoundTrip | src/iacv.py:84 | a single trailing octet, padded with `==`, decodes back |
| Base64.TwoOctetsRoundTrip | src/iacv.py:84 | two trailing octets, padded with `=`, decode back |
| Base64.ThreeOctetsRoundTrip | src/iacv.py:84 | a three-octet input decodes back |
| Base64.DecodeEncode | src/iacv.py:84 | decoding the encoding of any octet string gives the same octets: the plan survives its transport in `tf_plan` |
| Base64.LongerRoundTrip | src/iacv.py:84 | the round trip extends from the rest of the input to the input with one more leading block |
| Base64.EncodeAlphabet | src/iacv.py:84 | every character of an encoding is in the base 64 alphabet or is padding |
| Hex.HexLower | validations.py:76-78 | the hex digest has two characters per octet, high nibble first, lowercase digits |
| Hex.HexDigitInjective | validations.py:76-78 | distinct nibbles give distinct hex digits |
| Hex.HexLowerInjective | validations.py:76-81 | distinct digests never render to the same signature string |
| Hex.HexLowerIsLowerHex | validations.py:76-78 | every hex digest is an even number of lowercase hex digits |
| Callback.CreateTaskResultCallbackRequest | src/callback.py:11-96 | with RUNNING, the fixed "running" document; otherwise the final document of the report: it exists iff the report has a `name` member (possibly `null`), a validation report and a `violatedPolicy` on every finding; its status is passed iff `violations` is absent or `null`, its message is the four per-severity counts, its url is the service URL plus the report name as formatted ("None" for `null`), and its outcomes are the renderings of the complete findings in order |
| Callback.StatusName | src/callback.py:81 | the status as the document spells it: "running", "passed" or "failed" |
| Callback.SeverityCount | src/callback.py:58-65 | the number of findings whose severity is exactly the given one; findings of any other severity add nothing |
| Callback.Renderable | src/callback.py:67-68 | a finding is rendered only when its asset id, policy id, constraint type and severity are all present and non-empty |
| Callback.Outcomes | src/callback.py:66-78 | the outcome records of the renderable findings, in report order; the others are skipped |
| Callback.WellShaped | src/callback.py:37-96 | the transformer builds a document only for a report with a `name` member, a validation report, and a `violatedPolicy` on every finding; otherwise it raises inside and answers None |
| Callback.Render | src/callback.py:69-77 | the outcome record of a complete finding: the fixed outcome id, "Policy <policy> violated by asset <asset>", and a body with the severity, asset, policy and constraint type sections |
| Callback.SummaryMessage | src/callback.py:82 | the message "<low> LOW, <medium> MEDIUM, <high> HIGH, <critical> CRITICAL asset violations found" from the four counters |
| Callback.FinalDocument | src/callback.py:37-96 | the document the final callback carries for a report, as described for CreateTaskResultCallbackRequest |
| Callback.FindingsFail | src/callback.py:43-47 | a well-shaped report with at least one finding is never reported as passed |
| Callback.SendTerraformCallback | src/callback.py:99-124 | the status of the PATCH response, the status carried by a request exception, or 500 |
| Callback.SeverityCountAppend | src/callback.py:52-65 | severity counting is additive over concatenated finding lists |
| Callback.CountsBounded | src/callback.py:58-65 | each finding adds to at most one counter, so the four counters sum to at most the number of findings |
| Callback.SeverityCountBounded | src/callback.py:58-65 | each counter is at most the number of findings |
| Callback.UnknownSeverityNotCounted | src/callback.py:58-65 | a finding with a severity outside LOW, MEDIUM, HIGH and CRITICAL changes no counter |
| Callback.OutcomesAppend | src/callback.py:52-78 | outcome records of concatenated finding lists are the concatenation of their records |
| Callback.OutcomesBounded | src/callback.py:68-78 | there are never more outcome records than findings |
| Callback.OutcomeComesFromFinding | src/callback.py:68-78 | every outcome record is the rendering of a complete finding of the report |
| Callback.FindingProducesOutcome | src/callback.py:68-78 | every complete finding is rendered into an outcome record |
| Callback.UnrenderableStillCounted | src/callback.py:52-78 | an incomplete finding adds no outcome but still adds to its severity's counter |
| Callback.ExampleCounts | src/callback.py:49-65 | findings LOW, HIGH, HIGH give counters 1, 0, 2, 0 |
| Callback.ExampleSummary | src/callback.py:80-84 | those findings give the message "1 LOW, 0 MEDIUM, 2 HIGH, 0 CRITICAL asset violations found" |
| Callback.EmptyFindings | src/callback.py:43-84 | no findings give zero LOW, MEDIUM, HIGH and CRITICAL counters, no outcomes and the all-zero message |
| Iacv.GcloudRequestHeaders | src/iacv.py:71-78 | exactly the four headers: JSON content type, the bearer token, `X-GFE-SSL: yes` and the billing project |
| Iacv.Parent | src/iacv.py:155 | the organization's global location, under which the report is created and which the body names |
| Iacv.CreateIacValidationRequestBody | src/iacv.py:81-85 | the parent is the organization's global location, and `iac.tf_plan` decodes back to the serialised plan |
| Iacv.ValidateIacRequest | src/iacv.py:138-160 | the URL creates the report under the same parent that the body names, the body carries the plan recoverably, and the headers are exactly the service headers for the token and the billing project |
| Iacv.DelaysBounded | src/iacv.py:105-123 | the delays taken before the k-th retry total at most 35 seconds |
| Iacv.AttemptResult | src/iacv.py:109-130 | an attempt that is not retried succeeds exactly when its response has a `name` member, and then returns that name (or no value for `null`); a response without `name` raises; a request exception gives its status or 500 with the error text |
| Iacv.AttemptsUsed | src/iacv.py:108-119 | the loop makes one to four attempts; every attempt before the last one made was a retryable failure, and fewer than four are made only when the last one was not |
| Iacv.RetryOutcome | src/iacv.py:108-135 | the first attempt that is not retried decides the helper's result; when all four are retryable, 500 with "All retries failed" |
| Iacv.CallIacValidationApi | src/iacv.py:88-135 | the attempts made are `AttemptsUsed` and the result is `RetryOutcome`: every attempt before the last used one failed with a retryable status; the delays are 5, 10, 20 in order, one before each retry and none after the last; a non-retryable last attempt decides the result (its name with 200, no value with 200 when the name is `null`, a `KeyError` when the name is missing, or its status or 500 with the error text); four retryable failures give 500 with "All retries failed" |
| Iacv.RetriedThenAnswered | src/iacv.py:108-123 | k retryable failures followed by an answer with a name use k+1 attempts and give that name with 200; after three retries the delays were 5, 10 and 20 seconds |
| Iacv.AllAttemptsRetryable | src/iacv.py:114-135 | four retryable failures use all four attempts, wait 5, 10 and 20 seconds, and give 500 with "All retries failed" |
| Iacv.StopIndex | src/iacv.py:190-203 | the loop's stopping round is the first round that does not continue, or the end of the trace |
| Iacv.NotDone | src/iacv.py:200 | a `done` member that is present but falsy, `false` or `null` |
| Iacv.Continues | src/iacv.py:194-203 | a round after which the loop goes round again: the heartbeat was accepted, the status check answered, and the operation is not done |
| Iacv.FinalEvents | src/iacv.py:191-201 | the events of the round in which the loop stops: the heartbeat, and the status check only when the heartbeat was accepted |
| Iacv.RoundOutcome | src/iacv.py:194-214 | in the round where the loop stops, a report is returned exactly when the heartbeat was accepted and the operation is done with a `response` member, and it is that member; a refused heartbeat or a failed check gives its status and message |
| Iacv.PollResult | src/iacv.py:190-206 | still polling exactly when every round continues; otherwise the outcome of the first round that does not continue |
| Iacv.Waiting | src/iacv.py:190-203 | k not-done rounds leave three events each |
| Iacv.StatusUrl | src/iacv.py:188 | the status-check URL is the service URL plus the operation handle, or plus "None" when the submission returned no handle |
| Iacv.FetchIacValidationReport | src/iacv.py:163-214 | the poll stops in the first round whose heartbeat is refused or whose status check fails, lacks `done`, or has `done` true, with that round's outcome (a `KeyError` when `done` or `response` is missing, 200 with no report when `response` is `null`); before it, the log is k rounds of heartbeat, check and 10-second sleep, and then the final round's heartbeat and, if the heartbeat was accepted, its check; it is still polling when the trace runs out |
| Iacv.CountsAppend | src/iacv.py:190-203 | heartbeat, check and sleep counts are additive over concatenated logs |
| Iacv.HeartbeatsAppend | src/iacv.py:190-198 | heartbeat counting is additive |
| Iacv.ChecksAppend | src/iacv.py:199-201 | status-check counting is additive |
| Iacv.SleepsAppend | src/iacv.py:203 | the sleeps of concatenated logs are the concatenation of their sleeps |
| Iacv.Repeat | src/iacv.py:190-203 | k copies of a value: the helper that states the sleeps of k waiting rounds in WaitingCounts |
| Iacv.RoundCounts | src/iacv.py:190-203 | one not-done round sends one heartbeat, makes one check and sleeps 10 seconds |
| Iacv.WaitingCounts | src/iacv.py:190-203 | k not-done rounds send k heartbeats, make k checks and sleep 10 seconds k times |
| Iacv.HeartbeatBeforeEachCheckAppend | src/iacv.py:191-199 | "each check is preceded by a heartbeat" survives concatenation with a log that does not start with a check |
| Iacv.WaitingHeartbeatFirst | src/iacv.py:191-199 | in the not-done rounds, every check directly follows a "running" heartbeat |
| Iacv.PollLogHeartbeatFirst | src/iacv.py:190-203 | in every run of the poll loop, every status check directly follows a "running" heartbeat |
| Iacv.StopsAtFirstFinalRound | src/iacv.py:197-201 | the loop stops exactly at the first round that does not continue |
| Iacv.PollScenario | src/iacv.py:190-206 | k not-done checks followed by a done one: k+1 heartbeats, k+1 checks, k sleeps of 10 seconds, and the operation's response with status 200 |
| Iacv.FirstHeartbeatRejected | src/iacv.py:194-198 | a refused first heartbeat ends the loop with that status and "Error sending callback request", before any status check |
| Iacv.GetOrganizationId | src/iacv.py:31-68 | None for a failed request or a `null` ancestor list; otherwise the id of the first ancestor of type organization, where every ancestor before it is readable and of another type (a `null` type is another type); None exactly when there is no such ancestor |
| Iacv.FirstOrganizationUnique | src/iacv.py:60-62 | the first readable organization ancestor is unique, so the id the loop returns is determined by the response |
| Iacv.OrganizationAt | src/iacv.py:60-62 | the ancestor at a position is a readable organization with an `id`, and every ancestor before it is readable and of another type |
| Validations.FirstMissing | validations.py:45-47 | none is missing iff every name is present; otherwise the result is the first name, in order, that is absent |
| Validations.ValidateRequest | validations.py:15-49 | valid iff no message; a missing header takes precedence, then a body that does not parse |
| Validations.ValidIff | validations.py:15-49 | a request passes exactly when it has the signature header, parses, and carries all five required fields |
| Validations.ReportsFirstMissingField | validations.py:38-47 | a rejected body is reported with "Missing body field: " and the first required field it lacks |
| Validations.OnlyRequiredFieldsMatter | validations.py:15-49 | other headers, other fields and the field values never change the verdict |
| Validations.FirstMissingSameKeys | validations.py:45-47 | the first missing name depends only on which names are present |
| Validations.MissingFieldMessagesDistinct | validations.py:47 | different missing fields produce different messages |
| Validations.SecretNameInjective | validations.py:68-70 | distinct project numbers name distinct secrets |
| Validations.SecretName | validations.py:68-70 | the secret name is "projects/", the project number, and the HMAC secret's latest version path; the project number can be read back from it |
| Validations.ValidateHmacSignature | validations.py:52-85 | acceptance needs the header, the project's secret, and the header equal to the lowercase hex HMAC of the raw body under that secret; a missing header is a rejection, not an error |
| Validations.AcceptsGenuineSignature | validations.py:63-81 | a header equal to the lowercase hex HMAC of the raw body under the project's key is accepted |
| Validations.RejectsWrongSignature | validations.py:63-81 | a header that renders any other digest is rejected |
| Validations.RejectsNonHexSignature | validations.py:76-81 | a signature header that is not lowercase hex (uppercase, odd length, any other character) is rejected whatever the key |
| Validations.SignatureBindsDigest | validations.py:75-81 | a signature accepted for two bodies implies that the key gives them the same HMAC |
| Handler.StepFailure | src/main.py:72-77 | a helper's failure with a status other than 200 becomes a response with that status and its message (an empty body when it has none); a 200 with an error becomes 500 with the message; an exception becomes 500 with "Task errored out with exception: " and its text |
| Handler.Succeeded | src/main.py:72-77 | a helper's triple lets the handler go on: status 200 and no error message |
| Handler.IsTestStage | src/main.py:31 | the body is an object whose `stage` field is "test" |
| Handler.Admit | src/main.py:24-58 | an invalid request gets 400 with the validator's message and no collaborator is asked; a test stage gets an empty 200; the lookups run in order and each one is the last step exactly when it fails (no credentials, no project number, no organization), answered with its 500 message; the signature is checked exactly when the request is valid, not a test and every lookup succeeded, and the request is refused with 401 exactly when it fails; admission yields the first organization's id |
| Handler.Process | src/main.py:60-101 | a failed plan download is answered with its status; the submission carries the plan for the found organization and its result is the retry policy's outcome over the environment's attempts; the poll goes to the status URL of the returned handle and its result is the poll loop's outcome over the environment's rounds; the submission and poll failures are answered by StepFailure; a poll that never finishes never answers; on success the closing callback carries exactly the final document of the polled report, and the reply is the callback's status |
| Handler.AnalyzeTerraformPlan | src/main.py:22-106 | the steps are taken in the fixed order, none skipped or repeated, and each step is taken exactly when every step before it succeeded: the lookups, the signature check, the plan download, the submission (whose result is the retry outcome over the attempts, for the organization found) and the poll (to the handle's status URL, whose result is the poll outcome over the rounds); each early exit is answered with the failing step's status and message; after a finished poll the callback carries exactly the final document of the polled report and the reply is the callback's status |

## Left out

- The Flask app, its route and port binding, and logging (including the print of the access token at `src/main.py:35`) are not modelled.
- Credentials (`get_access_token`), `get_project_number` and `fetch_terraform_plan` are not modelled: their results are inputs of the `Environment`. The source of the last two, `src/utils.py`, is not part of this model.
- `get_organization_id` is modelled only from the parsed ancestry response on. The request, its URL and `raise_for_status` are reduced to `AncestryFailed`.
- JSON is not modelled:
  - the plan is the octets of its serialisation;
  - a request body is either unparsable or an object with string members;
  - a body that parses to something other than an object is left out;
  - the callback document is a value, not its UTF-8 JSON bytes (`src/callback.py:93`).
- HMAC-SHA512 is an uninterpreted function parameter. The UTF-8 decoding of the secret, and the constant-time comparison (any difference rejects), are not modelled.
- Header lookup is exact, not case-insensitive as in the web framework.
- The poll loop has no bound in the source. The model runs it over a finite trace of rounds. A trace that runs out while the operation is still not done is `StillPolling`, and the handler then has no reply (`NoReply`).
- The "cannot be built" heartbeat branch (`src/iacv.py:192-193`) is not modelled: the running document is always built.
- The web framework's treatment of the bare integer that the success path returns (`src/main.py:101`) is not modelled. It is the `BareStatus` reply.
- CallIacValidationApi: requires at least four attempt outcomes in its input; the method never uses more than four.
- Handler.AnalyzeTerraformPlan: requires at least four submission outcomes in the environment, for the same reason.
- The heartbeat and final callbacks are not tied to the run's callback URL and access token, and the status check's request headers are not modelled: the callback and status-check answers are inputs (`Round`, `finalCallback`). The poll records the URL it checks.
- Exceptions the catch-all in `src/main.py:104-106` would catch from code that is not modelled (for example a non-object JSON body) are not modelled.
