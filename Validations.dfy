/** The checks run on an incoming run-task request: the presence of the
    signature header and of the required body fields, and the signature
    itself, an HMAC of the raw body keyed by a stored secret. */
module Validations {
  import opened Common
  import Hex

  const SignatureHeader := "X-TFC-Task-Signature"
  const MissingHeaderMessage := "Missing header field: X-TFC-Task-Signature"
  const InvalidJsonMessage := "Invalid JSON body"
  const MissingFieldPrefix := "Missing body field: "

  /** The body fields a request must carry, in the order they are checked. */
  const RequiredBodyFields: seq<string> :=
    ["stage", "access_token", "organization_name", "plan_json_api_url", "task_result_callback_url"]

  /** The request body as the JSON parser sees it: text that does not parse,
      or a JSON object with its (string) members. */
  datatype Body = Unparsable | Object(fields: map<string, string>)

  /** The first of `names` that `fields` lacks. */
  function FirstMissing(names: seq<string>, fields: map<string, string>): (m: Option<string>)
    ensures m.None? <==> forall i | 0 <= i < |names| :: names[i] in fields
    ensures m.Some? ==> exists i | 0 <= i < |names| ::
      (names[i] == m.value && m.value !in fields && forall j | 0 <= j < i :: names[j] in fields)
  {
    if names == [] then None
    else if names[0] !in fields then Some(names[0])
    else
      var rest := FirstMissing(names[1..], fields);
      assert rest.Some? ==> exists i | 0 <= i < |names[1..]| ::
        (names[1..][i] == rest.value && rest.value !in fields && forall j | 0 <= j < i :: names[1..][j] in fields);
      rest
  }

  /** `validate_request`: the header first, then the body, then the fields
      in order; the message names the first thing missing. */
  function ValidateRequest(headers: map<string, string>, body: Body): (r: (bool, Option<string>))
    ensures r.0 <==> r.1.None?
    ensures SignatureHeader !in headers ==> r == (false, Some(MissingHeaderMessage))
    ensures SignatureHeader in headers && body.Unparsable? ==> r == (false, Some(InvalidJsonMessage))
  {
    if SignatureHeader !in headers then (false, Some(MissingHeaderMessage))
    else match body
      case Unparsable => (false, Some(InvalidJsonMessage))
      case Object(fields) =>
        match FirstMissing(RequiredBodyFields, fields)
        case Some(field) => (false, Some(MissingFieldPrefix + field))
        case None => (true, None)
  }

  predicate HasRequiredFields(fields: map<string, string>) {
    forall i | 0 <= i < |RequiredBodyFields| :: RequiredBodyFields[i] in fields
  }

  /** A request passes exactly when it carries the header, parses, and has
      all five fields. */
  lemma ValidIff(headers: map<string, string>, body: Body)
    ensures ValidateRequest(headers, body).0 <==>
      SignatureHeader in headers && body.Object? && HasRequiredFields(body.fields)
  {
    if SignatureHeader in headers && body.Object? {
      var m := FirstMissing(RequiredBodyFields, body.fields);
    }
  }

  /** A rejected body names the first required field, in checking order,
      that it lacks. */
  lemma ReportsFirstMissingField(headers: map<string, string>, fields: map<string, string>)
    requires SignatureHeader in headers && !HasRequiredFields(fields)
    ensures exists i | 0 <= i < |RequiredBodyFields| ::
      && RequiredBodyFields[i] !in fields
      && (forall j | 0 <= j < i :: RequiredBodyFields[j] in fields)
      && ValidateRequest(headers, Object(fields)) == (false, Some(MissingFieldPrefix + RequiredBodyFields[i]))
  {
    var m := FirstMissing(RequiredBodyFields, fields);
    var i :| 0 <= i < |RequiredBodyFields| && RequiredBodyFields[i] == m.value && m.value !in fields
      && forall j | 0 <= j < i :: RequiredBodyFields[j] in fields;
  }

  /** Fields other than the five required ones, their values, and headers
      other than the signature never change the verdict. */
  lemma OnlyRequiredFieldsMatter(h1: map<string, string>, h2: map<string, string>,
                                 f1: map<string, string>, f2: map<string, string>)
    requires (SignatureHeader in h1) == (SignatureHeader in h2)
    requires forall i | 0 <= i < |RequiredBodyFields| :: (RequiredBodyFields[i] in f1) == (RequiredBodyFields[i] in f2)
    ensures ValidateRequest(h1, Object(f1)) == ValidateRequest(h2, Object(f2))
  {
    FirstMissingSameKeys(RequiredBodyFields, f1, f2);
  }

  lemma {:induction false} FirstMissingSameKeys(names: seq<string>, f1: map<string, string>, f2: map<string, string>)
    requires forall i | 0 <= i < |names| :: (names[i] in f1) == (names[i] in f2)
    ensures FirstMissing(names, f1) == FirstMissing(names, f2)
  {
    if names != [] && names[0] in f1 {
      FirstMissingSameKeys(names[1..], f1, f2);
    }
  }

  /** Distinct missing fields give distinct messages. */
  lemma MissingFieldMessagesDistinct(a: string, b: string)
    requires MissingFieldPrefix + a == MissingFieldPrefix + b
    ensures a == b
  {
    var n := |MissingFieldPrefix|;
    assert a == (MissingFieldPrefix + a)[n..];
    assert b == (MissingFieldPrefix + b)[n..];
  }

  // ----- Signature -----

  /** The Secret Manager version holding the signing key. */
  function SecretName(projectNumber: string): (name: string)
    ensures |name| == 9 + |projectNumber| + |SecretSuffix|
    ensures name[..9] == "projects/" && name[|name| - |SecretSuffix|..] == SecretSuffix
    ensures name[9..|name| - |SecretSuffix|] == projectNumber
  {
    "projects/" + projectNumber + SecretSuffix
  }

  const SecretSuffix := "/secrets/HCP_TERRAFORM_HMAC/versions/latest"

  /** Each project reads its own secret: distinct project numbers name
      distinct secrets. */
  lemma SecretNameInjective(n1: string, n2: string)
    requires SecretName(n1) == SecretName(n2)
    ensures n1 == n2
  {
    var s := SecretName(n1);
    assert n1 == s[9..|s| - |SecretSuffix|];
    assert n2 == SecretName(n2)[9..|s| - |SecretSuffix|];
  }

  /** `validate_hmac_signature`: the header must equal the lowercase hex
      HMAC of the raw body under the key stored for the project. `secrets`
      holds the key octets by secret name (a name it lacks is a failed
      lookup); `hmac(key, message)` is HMAC-SHA512, left uninterpreted.
      Every failure, a missing header included, answers false. */
  function ValidateHmacSignature(headers: map<string, string>, secrets: map<string, seq<byte>>,
                                 projectNumber: string, rawBody: seq<byte>,
                                 hmac: (seq<byte>, seq<byte>) -> seq<byte>): (ok: bool)
    ensures ok ==> (SignatureHeader in headers && SecretName(projectNumber) in secrets
      && headers[SignatureHeader] == Hex.HexLower(hmac(secrets[SecretName(projectNumber)], rawBody)))
    ensures SignatureHeader !in headers ==> !ok
  {
    if SignatureHeader !in headers then false
    else if SecretName(projectNumber) !in secrets then false
    else headers[SignatureHeader] == Hex.HexLower(hmac(secrets[SecretName(projectNumber)], rawBody))
  }

  /** A request signed with the stored key is accepted. */
  lemma AcceptsGenuineSignature(headers: map<string, string>, secrets: map<string, seq<byte>>,
                                projectNumber: string, rawBody: seq<byte>,
                                hmac: (seq<byte>, seq<byte>) -> seq<byte>)
    requires SecretName(projectNumber) in secrets
    requires SignatureHeader in headers
    requires headers[SignatureHeader] == Hex.HexLower(hmac(secrets[SecretName(projectNumber)], rawBody))
    ensures ValidateHmacSignature(headers, secrets, projectNumber, rawBody, hmac)
  {
  }

  /** One signature vouches for one digest: if it is accepted for two bodies,
      the key gives both bodies the same HMAC. So a body altered in a way
      that changes its HMAC is rejected. */
  lemma SignatureBindsDigest(headers: map<string, string>, secrets: map<string, seq<byte>>,
                             projectNumber: string, body1: seq<byte>, body2: seq<byte>,
                             hmac: (seq<byte>, seq<byte>) -> seq<byte>)
    requires ValidateHmacSignature(headers, secrets, projectNumber, body1, hmac)
    requires ValidateHmacSignature(headers, secrets, projectNumber, body2, hmac)
    ensures var key := secrets[SecretName(projectNumber)];
      hmac(key, body1) == hmac(key, body2)
  {
    var key := secrets[SecretName(projectNumber)];
    Hex.HexLowerInjective(hmac(key, body1), hmac(key, body2));
  }

  /** A signature that is not lowercase hex (uppercase digits, an odd
      length, any other character) is rejected whatever the key. */
  lemma RejectsNonHexSignature(headers: map<string, string>, secrets: map<string, seq<byte>>,
                               projectNumber: string, rawBody: seq<byte>,
                               hmac: (seq<byte>, seq<byte>) -> seq<byte>)
    requires SignatureHeader in headers && !Hex.IsLowerHex(headers[SignatureHeader])
    ensures !ValidateHmacSignature(headers, secrets, projectNumber, rawBody, hmac)
  {
    if SecretName(projectNumber) in secrets {
      Hex.HexLowerIsLowerHex(hmac(secrets[SecretName(projectNumber)], rawBody));
    }
  }

  /** A signature that is not the HMAC under the stored key is rejected,
      whatever else the request carries. */
  lemma RejectsWrongSignature(headers: map<string, string>, secrets: map<string, seq<byte>>,
                              projectNumber: string, rawBody: seq<byte>,
                              hmac: (seq<byte>, seq<byte>) -> seq<byte>, digest: seq<byte>)
    requires SecretName(projectNumber) in secrets
    requires SignatureHeader in headers && headers[SignatureHeader] == Hex.HexLower(digest)
    requires digest != hmac(secrets[SecretName(projectNumber)], rawBody)
    ensures !ValidateHmacSignature(headers, secrets, projectNumber, rawBody, hmac)
  {
    var expected := hmac(secrets[SecretName(projectNumber)], rawBody);
    if Hex.HexLower(digest) == Hex.HexLower(expected) {
      Hex.HexLowerInjective(digest, expected);
    }
  }
}
