/** Values shared by every part of the webhook handler: optional values,
    the (value, status, error) triples the helpers return, the outcome of
    one HTTP exchange, and the decimal rendering of counters. */
module Common {

  datatype Option<+T> = None | Some(value: T) {
    function GetOr(default: T): T {
      match this
      case Some(v) => v
      case None => default
    }
  }

  /** A member of a parsed JSON object: absent, present with `null`, or
      present with a value. Indexing an absent member raises a `KeyError`;
      `.get` answers None for both absent and `null`. */
  datatype Field<+T> = Absent | Null | Present(value: T)

  /** A string member as an f-string formats it: `null` becomes "None". */
  function FieldText(f: Field<string>): (s: string)
    requires !f.Absent?
    ensures f.Present? ==> s == f.value
    ensures f.Null? ==> s == "None"
  {
    if f.Null? then "None" else f.value
  }

  /** The base URL of the security posture service. */
  const ServiceUrl := "https://securityposture.googleapis.com/v1/"

  /** One octet of a request body, a plan or a digest. */
  type byte = x: int | 0 <= x < 256

  /** What a fallible helper hands back: the `(value, status, error)` triple
      it returns, or an exception that escapes it (with the exception's text). */
  datatype Call<+T> =
    | Returned(value: Option<T>, status: int, error: Option<string>)
    | Raised(exception: string)

  /** The outcome of one outbound HTTP request: a response with its status
      code, or a request exception that may carry the status of a response. */
  datatype Transport = Responded(code: int) | RequestFailed(status: Option<int>, text: string)

  /** The status reported for a request exception: the response's status
      code when the exception carries one, 500 otherwise. */
  function ErrorStatus(status: Option<int>): (code: int)
    ensures status.Some? ==> code == status.value
    ensures status.None? ==> code == 500
  {
    status.GetOr(500)
  }

  function DigitChar(d: nat): (c: char)
    requires d < 10
    ensures '0' <= c <= '9'
  {
    (('0' as int) + d) as char
  }

  /** Decimal rendering of a counter, as Python formats an `int` in an f-string. */
  function NatToString(n: nat): (s: string)
    ensures |s| > 0
    ensures forall i | 0 <= i < |s| :: '0' <= s[i] <= '9'
    decreases n
  {
    if n < 10 then [DigitChar(n)] else NatToString(n / 10) + [DigitChar(n % 10)]
  }

  /** The value of a string of decimal digits. */
  function DecimalValue(s: string): nat
    requires forall i | 0 <= i < |s| :: '0' <= s[i] <= '9'
  {
    if s == [] then 0 else 10 * DecimalValue(s[..|s| - 1]) + (s[|s| - 1] as int - '0' as int)
  }

  /** The rendering loses nothing: the counter can be read back from its digits. */
  lemma {:induction false} NatToStringRoundTrip(n: nat)
    ensures DecimalValue(NatToString(n)) == n
    decreases n
  {
    if n >= 10 {
      NatToStringRoundTrip(n / 10);
      var s := NatToString(n);
      assert s[..|s| - 1] == NatToString(n / 10);
    }
  }

  /** Distinct counters render to distinct strings. */
  lemma NatToStringInjective(m: nat, n: nat)
    requires NatToString(m) == NatToString(n)
    ensures m == n
  {
    NatToStringRoundTrip(m);
    NatToStringRoundTrip(n);
  }

  function Sum(xs: seq<nat>): nat {
    if xs == [] then 0 else xs[0] + Sum(xs[1..])
  }
}
