/** accounts/utils.py: random strings, time-limited verification tokens and
    the uniform response envelope. */
module Utils {
  import opened Base

  /** string.ascii_lowercase + string.digits, the population of generate_random_string */
  const LowercaseAndDigits: string := "abcdefghijklmnopqrstuvwxyz0123456789"

  predicate IsLowercaseOrDigit(c: char)
  {
    'a' <= c <= 'z' || '0' <= c <= '9'
  }

  /** The k-th character of ascii_lowercase + digits. */
  function AlphabetChar(k: nat): (c: char)
    requires k < 36
    ensures IsLowercaseOrDigit(c)
  {
    if k < 26 then ('a' as int + k) as char else ('0' as int + k - 26) as char
  }

  lemma AlphabetCharIsLiteral(k: nat)
    requires k < 36
    ensures |LowercaseAndDigits| == 36 && LowercaseAndDigits[k] == AlphabetChar(k)
  {
  }

  /** generate_random_string(length=10). The random choice of the i-th
      character is the parameter `draw`: character i is the alphabet entry
      that draw(i) selects. A length of zero or less gives the empty string,
      as random.choices does for k <= 0. */
  function GenerateRandomString(draw: nat -> nat, length: int := 10): (s: string)
    ensures |s| == if length <= 0 then 0 else length
    ensures forall i :: 0 <= i < |s| ==> IsLowercaseOrDigit(s[i])
  {
    if length <= 0 then []
    else
      var s := seq(length, i requires 0 <= i < length => AlphabetChar(draw(i) % 36));
      assert forall i :: 0 <= i < length ==> s[i] == AlphabetChar(draw(i) % 36);
      s
  }

  /** Position of `c` in ascii_lowercase + digits. */
  function AlphabetIndex(c: char): (k: nat)
    requires IsLowercaseOrDigit(c)
    ensures k < 36 && AlphabetChar(k) == c
  {
    if 'a' <= c <= 'z' then (c - 'a') as nat else 26 + (c - '0') as nat
  }

  /** The alphabet is exactly ascii_lowercase + digits: every string over it,
      of every length, is a possible result. */
  lemma EveryAlphabetStringIsReachable(target: string)
    requires forall i :: 0 <= i < |target| ==> IsLowercaseOrDigit(target[i])
    ensures exists draw: nat -> nat :: GenerateRandomString(draw, |target|) == target
  {
    var draw := (i: nat) => if i < |target| then AlphabetIndex(target[i]) else 0;
    var s := GenerateRandomString(draw, |target|);
    assert |s| == |target|;
    forall i | 0 <= i < |target|
      ensures s[i] == target[i]
    {
      assert draw(i) == AlphabetIndex(target[i]);
    }
    assert s == target;
  }

  /** Seconds for which a verification token stays valid (max_age). */
  const MaxAge := 3600

  /** A token as signing.dumps produces it: the signed payload {'user_id': id}
      with the time of signing. `authentic` abstracts the signature check
      under the configured secret and salt: a forged, altered or truncated
      token, or one signed with another salt, has it false. */
  datatype Token = Token(userId: int, issuedAt: int, authentic: bool)

  /** generate_token(user_id), signed at time `now`. */
  function GenerateToken(userId: int, now: int): (t: Token)
    ensures forall later :: later - now <= MaxAge ==> VerifyToken(t, later) == Some(userId)
    ensures forall later :: later - now > MaxAge ==> VerifyToken(t, later) == None
  {
    Token(userId, now, true)
  }

  /** verify_token(token) at time `now`: the payload's user id, or None for
      a bad signature or a token older than MaxAge. It never raises. */
  function VerifyToken(t: Token, now: int): (r: Option<int>)
    ensures r.Some? <==> t.authentic && now - t.issuedAt <= MaxAge
    ensures r.Some? ==> r.value == t.userId
  {
    if !t.authentic then None
    else if now - t.issuedAt > MaxAge then None
    else Some(t.userId)
  }

  /** A token verified no later than MaxAge seconds after it was issued
      yields the id it was issued for. */
  lemma TokenRoundTrip(userId: int, issued: int, now: int)
    requires now - issued <= MaxAge
    ensures VerifyToken(GenerateToken(userId, issued), now) == Some(userId)
  {
  }

  /** Past MaxAge, and for any token whose signature does not check, the
      result is None. */
  lemma TokenRejected(t: Token, now: int)
    requires !t.authentic || now - t.issuedAt > MaxAge
    ensures VerifyToken(t, now) == None
  {
  }

  /** The HTTP response format_response builds: the status code and the dict body. */
  datatype Response = Response(status: int, body: map<string, Json>)

  const HTTP_200_OK := 200
  const HTTP_201_CREATED := 201
  const HTTP_400_BAD_REQUEST := 400

  /** format_response(message, data=None, error=None, status_code=200) */
  function FormatResponse(message: string, data: Json := Null, error: Json := Null,
                          statusCode: int := HTTP_200_OK): (r: Response)
    ensures r.status == statusCode
    ensures "message" in r.body && r.body["message"] == Str(message)
    ensures "status" in r.body && r.body["status"] == Num(statusCode)
    ensures ("error" in r.body) == Truthy(error)
    ensures ("data" in r.body) == !Truthy(error)
    ensures "error" in r.body ==> r.body["error"] == error
    ensures "data" in r.body ==> r.body["data"] == data
    ensures r.body.Keys <= {"message", "status", "error", "data"}
  {
    var response := map["message" := Str(message), "status" := Num(statusCode)];
    if Truthy(error) then Response(statusCode, response["error" := error])
    else Response(statusCode, response["data" := data])
  }

  /** Every response has exactly one of the keys "error" and "data". */
  lemma ExactlyOneOfErrorOrData(message: string, data: Json, error: Json, statusCode: int)
    ensures var body := FormatResponse(message, data, error, statusCode).body;
            ("error" in body) != ("data" in body) && |body| == 3
  {
    var body := FormatResponse(message, data, error, statusCode).body;
    var k := if Truthy(error) then "error" else "data";
    assert body.Keys == {"message", "status", k};
  }

  /** An empty error string is falsy: the response takes the data branch. */
  lemma EmptyErrorTakesDataBranch(message: string, data: Json, statusCode: int)
    ensures var body := FormatResponse(message, data, Str(""), statusCode).body;
            "error" !in body && "data" in body && body["data"] == data
  {
  }
}
