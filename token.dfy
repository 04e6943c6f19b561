/** The payload of the bearer token (a JSON Web Token, RFC 7519) as the front end reads it:
    the second dot-separated segment, decoded and parsed into a map of claims. Decoding
    (atob and JSON.parse) is not modelled: it is the parameter `decode`, a total function from
    the segment to either a claim map or a failure. No signature is checked anywhere. */
module Token {
  import opened Common

  /** A JSON value as far as the front end inspects it. Numbers are integers here;
      arrays and objects are not looked into. */
  datatype Json = JString(s: string) | JNumber(n: int) | JBool(b: bool) | JNull | JComposite

  /** JavaScript truthiness of a JSON value. */
  predicate Truthy(v: Json) {
    match v
    case JString(s) => s != ""
    case JNumber(n) => n != 0
    case JBool(b) => b
    case JNull => false
    case JComposite => true
  }

  /** String(v), which is also what localStorage.setItem stores for v. */
  function ToText(v: Json): string {
    match v
    case JString(s) => s
    case JNumber(n) => if n < 0 then "-" + DecimalString(-n) else DecimalString(n)
    case JBool(b) => if b then "true" else "false"
    case JNull => "null"
    case JComposite => "[object Object]"
  }

  /** The outcome of atob followed by JSON.parse: a failure (either throws), or the claims.
      A payload that parses to a non-object has no claims and is Claims(map[]). */
  datatype Payload = DecodeFailed | Claims(claims: map<string, Json>)

  const RoleClaim: string := "http://schemas.microsoft.com/ws/2008/06/identity/claims/role"
  const NameIdentifierClaim: string := "http://schemas.xmlsoap.org/ws/2005/05/identity/claims/nameidentifier"

  /** `token.split(".")[1]`: the text between the first dot and the next dot (or the end);
      None (undefined) when the token has no dot. */
  function MiddleSegment(token: string): (r: Option<string>)
    ensures r.None? <==> (forall j :: 0 <= j < |token| ==> token[j] != '.')
    ensures r.Some? ==> forall j :: 0 <= j < |r.value| ==> r.value[j] != '.'
    ensures r.Some? ==>
      var k := FirstIndexOf(token, {'.'});
      k < |token| && r.value <= token[k + 1..] &&
      (|r.value| == |token| - k - 1 || token[k + 1 + |r.value|] == '.')
  {
    var parts := Split(token, {'.'});
    SplitWithoutSeparator(token, {'.'});
    if |parts| >= 2 then
      var k := FirstIndexOf(token, {'.'});
      var rest := token[k + 1..];
      var k2 := FirstIndexOf(rest, {'.'});
      assert parts == [token[..k]] + Split(rest, {'.'});
      assert Split(rest, {'.'})[0] == rest[..k2] by {
        SplitWithoutSeparator(rest, {'.'});
      }
      Some(parts[1])
    else None
  }

  /** The decoded payload of a stored token. Without a middle segment, atob receives
      undefined, reads it as the text "undefined", which is not valid base64, and throws. */
  function PayloadOf(token: string, decode: string -> Payload): (p: Payload)
    ensures MiddleSegment(token).None? ==> p == DecodeFailed
    ensures MiddleSegment(token).Some? ==> p == decode(MiddleSegment(token).value)
  {
    match MiddleSegment(token)
    case None => DecodeFailed
    case Some(segment) => decode(segment)
  }

  /** `payload[key]`, None standing for undefined. */
  function Lookup(claims: map<string, Json>, key: string): Option<Json> {
    if key in claims then Some(claims[key]) else None
  }

  predicate TruthyOpt(v: Option<Json>) { v.Some? && Truthy(v.value) }

  /** `a || b || null`: the first truthy value, else null. */
  function FirstTruthy(a: Option<Json>, b: Option<Json>): (r: Option<Json>)
    ensures r.Some? ==> Truthy(r.value)
    ensures TruthyOpt(a) ==> r == a
    ensures !TruthyOpt(a) && TruthyOpt(b) ==> r == b
    ensures !TruthyOpt(a) && !TruthyOpt(b) ==> r.None?
  {
    if TruthyOpt(a) then a else if TruthyOpt(b) then b else None
  }

  /** `payload.exp && payload.exp < now`. A boolean `true` compares as 1; string and
      composite values are treated as never expiring. */
  predicate IsExpired(claims: map<string, Json>, now: int)
    ensures IsExpired(claims, now) ==> "exp" in claims && Truthy(claims["exp"])
    ensures "exp" in claims && claims["exp"].JNumber? ==>
      (IsExpired(claims, now) <==> Truthy(claims["exp"]) && claims["exp"].n < now)
  {
    "exp" in claims &&
    match claims["exp"]
    case JNumber(n) => n != 0 && n < now
    case JBool(b) => b && 1 < now
    case _ => false
  }

  /** getUserIdFromToken: the truthy name-identifier claim of the stored token, or null when
      there is no token, the payload does not decode, or the claim is absent or falsy. */
  function UserIdFromToken(token: Option<string>, decode: string -> Payload): (r: Option<Json>)
    ensures r.Some? ==> Truthy(r.value)
    ensures r.Some? ==>
      token.Some? && token.value != "" && PayloadOf(token.value, decode).Claims? &&
      Lookup(PayloadOf(token.value, decode).claims, NameIdentifierClaim) == r
    ensures (token.Some? && token.value != "" && PayloadOf(token.value, decode).Claims? &&
             TruthyOpt(Lookup(PayloadOf(token.value, decode).claims, NameIdentifierClaim))) ==> r.Some?
  {
    if token.None? || token.value == "" then None
    else match PayloadOf(token.value, decode)
      case DecodeFailed => None
      case Claims(c) => FirstTruthy(Lookup(c, NameIdentifierClaim), None)
  }
}
