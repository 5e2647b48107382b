/** The bearer-token authenticator for the API (`KeycloakJWTAuthentication`).
    The JWT signature check and the key-set download are outside the model:
    they are the decoder functions passed in. */
module Auth {
  import opened Common
  import opened UserModels
  import opened Db
  import opened UserTasks

  /** The client id the tokens must be issued for or to. */
  const SPA_CLIENT: string := "spa"

  /** The authentication scheme of section 2.1 of RFC 6750. */
  const KEYWORD: string := "Bearer"

  /** The claims of a decoded token. */
  type Payload = map<string, Json>

  /** What `_decode` yields: the claims, or the exception it raises.
      `Expired`, `BadSignature` and `Invalid` are the library's
      `InvalidTokenError` family; `KeyFetchFailed` (the key-set client's
      own error) is not, and escapes the handler. */
  datatype Decoded =
    | Claims(payload: Payload)
    | Expired
    | BadSignature
    | Invalid
    | KeyFetchFailed

  datatype AudienceCheck = AudienceOk | AudienceMismatch | AudienceTypeError

  /** `_check_audience`: `aud` (the `aud` claim of section 4.1.3 of RFC 7519,
      an empty list when absent, a lone string read as a one-element list)
      must hold the client, or the `azp` claim (section 2 of OpenID Connect
      Core 1.0) must name it. An `aud` that is not a container makes the
      membership test raise a `TypeError` before `azp` is looked at; for an
      object the test is on its keys. */
  function CheckAudience(p: Payload): AudienceCheck {
    var aud := if "aud" in p then p["aud"] else JArr([]);
    var listed :=
      match aud
      case JStr(s) => Some(s == SPA_CLIENT)
      case JArr(items) => Some(JStr(SPA_CLIENT) in items)
      case JObj(fields) => Some(SPA_CLIENT in fields)
      case _ => None;
    if listed.None? then AudienceTypeError
    else if !listed.value && Get(p, "azp") != JStr(SPA_CLIENT) then AudienceMismatch
    else AudienceOk
  }

  /** For an absent, string or list `aud`, the check passes exactly when the
      client is listed or is the authorized party, and raises the mismatch
      otherwise. */
  lemma AudienceRule(p: Payload)
    requires "aud" !in p || p["aud"].JStr? || p["aud"].JArr?
    ensures CheckAudience(p) != AudienceTypeError
    ensures CheckAudience(p) == AudienceOk <==>
      || ("aud" in p && p["aud"] == JStr(SPA_CLIENT))
      || ("aud" in p && p["aud"].JArr? && JStr(SPA_CLIENT) in p["aud"].items)
      || Get(p, "azp") == JStr(SPA_CLIENT)
  {
  }

  /** A string `aud` is read as the one-element list holding it. */
  lemma StringAudienceIsList(p: Payload, s: string)
    ensures CheckAudience(p["aud" := JStr(s)]) == CheckAudience(p["aud" := JArr([JStr(s)])])
  {
    assert JStr(SPA_CLIENT) in [JStr(s)] <==> s == SPA_CLIENT;
  }

  /** `header.lower().startswith('bearer ')`. */
  predicate BearerPrefix(header: string) {
    Lower(KEYWORD) + " " <= Lower(header)
  }

  datatype AuthResult =
    | NotAttempted                       // None: the header is not a bearer header
    | Failed(message: string)            // AuthenticationFailed
    | Authenticated(user: UserId, payload: Payload)
    | ServerError                        // an exception the handler does not map

  const EXPIRED_MESSAGE: string := "JWT expired"
  const AUDIENCE_MESSAGE: string := "JWT audience mismatch"
  const INVALID_MESSAGE: string := "JWT error: Invalid Token"

  /** `_decode`, and after a signature error one key-set refresh and a
      second `_decode`: `cached` decodes with the keys at hand, `refetched` with
      the refetched ones. */
  function DecodeWithRetry(token: string, cached: string -> Decoded, refetched: string -> Decoded): Decoded {
    var first := cached(token);
    if first.BadSignature? then refetched(token) else first
  }

  /** The `try` block with its handlers: the verified claims, or the
      outcome that ends the request. */
  datatype Verdict = Verified(payload: Payload) | Refused(outcome: AuthResult)

  function Verify(token: string, cached: string -> Decoded, refetched: string -> Decoded): (r: Verdict)
    ensures r.Refused? ==> r.outcome.Failed? || r.outcome.ServerError?
  {
    match DecodeWithRetry(token, cached, refetched)
    case Expired => Refused(Failed(EXPIRED_MESSAGE))
    case BadSignature => Refused(Failed(INVALID_MESSAGE))
    case Invalid => Refused(Failed(INVALID_MESSAGE))
    case KeyFetchFailed => Refused(ServerError)
    case Claims(p) =>
      match CheckAudience(p)
      case AudienceOk => Verified(p)
      case AudienceMismatch => Refused(Failed(AUDIENCE_MESSAGE))
      case AudienceTypeError => Refused(ServerError)
  }

  /** A string claim; `None` for a claim of another type. */
  function AsString(j: Json): Option<string> {
    if j.JStr? then Some(j.s) else None
  }

  /** `payload.get(key, '')` as a string. */
  function StringClaim(p: Payload, key: string): Option<string> {
    if key in p then AsString(p[key]) else Some("")
  }

  /** `payload.get(primary) or payload.get(fallback, '')`. */
  function StringClaimOr(p: Payload, primary: string, fallback: string): Option<string> {
    if Truthy(Get(p, primary)) then AsString(p[primary]) else StringClaim(p, fallback)
  }

  /** `preferred_username`, else `email`, else `sub` (the first with a truthy
      value; a missing `sub` is a `KeyError`). */
  function UsernameClaim(p: Payload): Option<Json> {
    if Truthy(Get(p, "preferred_username")) then Some(p["preferred_username"])
    else if Truthy(Get(p, "email")) then Some(p["email"])
    else if "sub" in p then Some(p["sub"])
    else None
  }

  /** The row holding `name`, if any. */
  function FindUsername(users: seq<User>, name: string): (r: Option<UserId>)
    ensures r.None? <==> forall k :: 0 <= k < |users| ==> users[k].username != name
    ensures r.Some? ==> r.value < |users| && users[r.value].username == name
  {
    if users == [] then None
    else if users[|users| - 1].username == name then Some(|users| - 1)
    else FindUsername(users[..|users| - 1], name)
  }

  /** `User.objects.update_or_create(username=..., defaults=...)`: the
      defaults overwrite the row holding the username, or a new row is
      created with them. */
  function Upsert(users: seq<User>, name: string, email: string, first: string, last: string): (seq<User>, UserId) {
    match FindUsername(users, name)
    case Some(k) => (users[k := users[k].(email := email, firstName := first, lastName := last, isActive := true)], k)
    case None => (users + [NewUser(name, email, first, last)], |users|)
  }

  /** The values fit their columns; a longer one makes the database refuse
      the write. */
  predicate FitsColumns(name: string, email: string, first: string, last: string) {
    |name| <= USERNAME_MAX_LENGTH && |email| <= EMAIL_MAX_LENGTH
    && |first| <= NAME_MAX_LENGTH && |last| <= NAME_MAX_LENGTH
  }

  /** The user row a verified payload signs in: a server error when choosing
      the username or reading a claim raises, or when `update_or_create`
      fails on a value too long for its column. */
  function SignInSpec(t: Tables, p: Payload): (Tables, AuthResult) {
    var name := UsernameClaim(p);
    var email := StringClaim(p, "email");
    var first := StringClaimOr(p, "given_name", "first_name");
    var last := StringClaimOr(p, "family_name", "last_name");
    if name.None? || !name.value.JStr? || email.None? || first.None? || last.None? then (t, ServerError)
    else if !FitsColumns(name.value.s, email.value, first.value, last.value) then (t, ServerError)
    else
      var (users, u) := Upsert(t.users, name.value.s, email.value, first.value, last.value);
      (t.(users := users), Authenticated(u, p))
  }

  /** The header read: not a bearer header, a bearer header without a
      second field (`split()[1]` raises `IndexError`), or the token. */
  datatype HeaderRead = NoBearer | NoToken | Token(token: string)

  function ReadHeader(header: string): (r: HeaderRead)
    ensures r.NoBearer? <==> !BearerPrefix(header)
    ensures r.Token? ==> |Fields(header)| >= 2 && r.token == Fields(header)[1]
    ensures r.NoToken? ==> BearerPrefix(header) && |Fields(header)| < 2
  {
    if !BearerPrefix(header) then NoBearer
    else
      var fs := Fields(header);
      if |fs| < 2 then NoToken else Token(fs[1])
  }

  /** `authenticate(request)` with Authorization header `header`. */
  function AuthSpec(t: Tables, header: string, cached: string -> Decoded, refetched: string -> Decoded): (Tables, AuthResult) {
    match ReadHeader(header)
    case NoBearer => (t, NotAttempted)
    case NoToken => (t, ServerError)
    case Token(token) =>
      match Verify(token, cached, refetched)
      case Refused(e) => (t, e)
      case Verified(p) => SignInSpec(t, p)
  }

  method Authenticate(db: Store, header: string, cached: string -> Decoded, refetched: string -> Decoded) returns (r: AuthResult)
    modifies db
    ensures (db.State(), r) == AuthSpec(old(db.State()), header, cached, refetched)
  {
    var read := ReadHeader(header);
    if read.NoBearer? {
      return NotAttempted;
    } else if read.NoToken? {
      return ServerError;
    }
    var verdict := VerifyToken(read.token, cached, refetched);
    if verdict.Refused? {
      return verdict.outcome;
    }
    r := SignIn(db, verdict.payload);
  }

  /** The decode, the single retry after a signature error, the audience
      check and the exception handlers. */
  method VerifyToken(token: string, cached: string -> Decoded, refetched: string -> Decoded) returns (v: Verdict)
    ensures v == Verify(token, cached, refetched)
  {
    var decoded := cached(token);
    if decoded.BadSignature? {
      decoded := refetched(token);
    }
    match decoded {
      case Expired => return Refused(Failed(EXPIRED_MESSAGE));
      case BadSignature => return Refused(Failed(INVALID_MESSAGE));
      case Invalid => return Refused(Failed(INVALID_MESSAGE));
      case KeyFetchFailed => return Refused(ServerError);
      case Claims(p) =>
        var audience := CheckAudience(p);
        if audience.AudienceMismatch? {
          return Refused(Failed(AUDIENCE_MESSAGE));
        } else if audience.AudienceTypeError? {
          return Refused(ServerError);
        }
        return Verified(p);
    }
  }

  /** The username choice and `update_or_create`. */
  method SignIn(db: Store, p: Payload) returns (r: AuthResult)
    modifies db
    ensures (db.State(), r) == SignInSpec(old(db.State()), p)
  {
    var name := UsernameClaim(p);
    var email := StringClaim(p, "email");
    var first := StringClaimOr(p, "given_name", "first_name");
    var last := StringClaimOr(p, "family_name", "last_name");
    if name.None? || !name.value.JStr? || email.None? || first.None? || last.None? {
      return ServerError;
    }
    if !FitsColumns(name.value.s, email.value, first.value, last.value) {
      return ServerError;
    }
    var found := FindUsername(db.users, name.value.s);
    if found.Some? {
      var k := found.value;
      db.users := db.users[k := db.users[k].(email := email.value, firstName := first.value, lastName := last.value, isActive := true)];
      r := Authenticated(k, p);
    } else {
      db.users := db.users + [NewUser(name.value.s, email.value, first.value, last.value)];
      r := Authenticated(|db.users| - 1, p);
    }
  }

  // ---------------------------------------------------------------- header parsing

  /** A word followed by nothing or by whitespace is the first field, and
      the rest is split on its own. */
  lemma FieldsOfWord(w: string, rest: string)
    requires IsWord(w) && (rest == [] || IsSpace(rest[0]))
    ensures Fields(w + rest) == [w] + Fields(rest)
  {
    var x := w + rest;
    assert x[0] == w[0];
    assert TrimLeft(x) == x;
    WordOfWord(w, rest);
    assert x[|w|..] == rest;
  }

  /** A word followed by nothing or by whitespace is the first word. */
  lemma {:induction false} WordOfWord(w: string, rest: string)
    requires IsWord(w) && (rest == [] || IsSpace(rest[0]))
    ensures Word(w + rest) == w
  {
    var x := w + rest;
    assert x[0] == w[0] && x[1..] == w[1..] + rest;
    if |w| > 1 {
      WordOfWord(w[1..], rest);
    }
  }

  lemma KeywordLowered()
    ensures Lower(KEYWORD) == "bearer"
  {
    assert Lower(KEYWORD) == "bearer";
  }

  /** A scheme that lower-cases to `bearer` holds no whitespace. */
  lemma SchemeIsWord(scheme: string)
    requires Lower(scheme) == Lower(KEYWORD)
    ensures IsWord(scheme) && Lower(KEYWORD) == "bearer"
  {
    KeywordLowered();
    forall m | 0 <= m < |scheme| ensures !IsSpace(scheme[m]) {
      assert LowerChar(scheme[m]) == "bearer"[m];
    }
  }

  /** The header opens with the scheme in any letter case and a space. */
  lemma SchemePrefix(scheme: string, w: string, rest: string)
    requires Lower(scheme) == Lower(KEYWORD)
    ensures BearerPrefix(scheme + " " + w + rest)
  {
    SchemeIsWord(scheme);
    var h := scheme + " " + w + rest;
    var lh := Lower(h);
    assert lh[..7] == Lower(scheme) + " " by {
      forall m | 0 <= m < 7 ensures lh[m] == (Lower(scheme) + " ")[m] {
        if m < 6 { assert h[m] == scheme[m]; } else { assert h[m] == ' '; }
      }
    }
  }

  lemma Regroup(a: string, b: string, c: string, d: string)
    ensures a + b + c + d == a + (b + (c + d))
  {
  }

  /** Leading whitespace does not change the fields. */
  lemma FieldsAfterSpace(c: char, s: string)
    requires IsSpace(c)
    ensures Fields([c] + s) == Fields(s)
  {
    assert ([c] + s)[1..] == s;
    assert TrimLeft([c] + s) == TrimLeft(s);
  }

  /** The second field of `<scheme><space><word>[ ...]` is the word. */
  lemma SecondField(scheme: string, c: char, w: string, rest: string)
    requires IsWord(scheme) && IsSpace(c) && IsWord(w) && (rest == [] || IsSpace(rest[0]))
    ensures var fs := Fields(scheme + [c] + w + rest); |fs| >= 2 && fs[1] == w
  {
    var x := w + rest;
    Regroup(scheme, [c], w, rest);
    FieldsOfWord(scheme, [c] + x);
    FieldsAfterSpace(c, x);
    FieldsOfWord(w, rest);
  }

  /** `Authorization: <scheme> <token>[ ...]` with the scheme `Bearer` in any
      letter case yields the token, the second whitespace-separated field. */
  lemma BearerToken(scheme: string, w: string, rest: string)
    requires Lower(scheme) == Lower(KEYWORD)
    requires IsWord(w) && (rest == [] || IsSpace(rest[0]))
    ensures ReadHeader(scheme + " " + w + rest) == Token(w)
  {
    SchemeIsWord(scheme);
    SchemePrefix(scheme, w, rest);
    SecondField(scheme, ' ', w, rest);
  }

  /** A header that does not open with the bearer scheme is left to the
      other authenticators, with no write. */
  lemma NonBearerNotAttempted(t: Tables, header: string, cached: string -> Decoded, refetched: string -> Decoded)
    ensures AuthSpec(t, header, cached, refetched).1 == NotAttempted <==> !BearerPrefix(header)
    ensures !BearerPrefix(header) ==> AuthSpec(t, header, cached, refetched).0 == t
  {
  }

  // ---------------------------------------------------------------- decoding and errors

  /** The refetched keys are consulted only after a signature error, and
      only once: a second signature error is reported as an invalid token. */
  lemma RetryOnlyAfterBadSignature(token: string, cached: string -> Decoded, f1: string -> Decoded, f2: string -> Decoded)
    ensures !cached(token).BadSignature? ==> Verify(token, cached, f1) == Verify(token, cached, f2)
    ensures cached(token).BadSignature? ==> DecodeWithRetry(token, cached, f1) == f1(token)
    ensures cached(token).BadSignature? && f1(token).BadSignature? ==>
      Verify(token, cached, f1) == Refused(Failed(INVALID_MESSAGE))
  {
  }

  /** Each failure carries the message of its cause: an expired token, an
      audience mismatch, or any other invalid token. */
  lemma FailureMessages(token: string, cached: string -> Decoded, refetched: string -> Decoded)
    ensures var v := Verify(token, cached, refetched); var d := DecodeWithRetry(token, cached, refetched);
      && (v == Refused(Failed(EXPIRED_MESSAGE)) <==> d.Expired?)
      && (v == Refused(Failed(AUDIENCE_MESSAGE)) <==> d.Claims? && CheckAudience(d.payload) == AudienceMismatch)
      && (v == Refused(Failed(INVALID_MESSAGE)) <==> d.BadSignature? || d.Invalid?)
      && (v.Refused? && v.outcome.Failed? ==> v.outcome.message in {EXPIRED_MESSAGE, AUDIENCE_MESSAGE, INVALID_MESSAGE})
      && (v.Verified? <==> d.Claims? && CheckAudience(d.payload) == AudienceOk)
  {
  }

  // ---------------------------------------------------------------- the user row

  /** A signed-in token's user row holds the chosen username and the token's
      names and email and is active; an existing row keeps its other
      columns (its `last_login` too), a new row has the defaults; no other
      row and no other table changes. */
  lemma SignInFacts(t: Tables, p: Payload)
    requires SignInSpec(t, p).1.Authenticated?
    ensures var (t', r) := SignInSpec(t, p); var u := r.user;
      && UsernameClaim(p).Some? && UsernameClaim(p).value.JStr?
      && u < |t'.users| && t'.users[u].username == UsernameClaim(p).value.s
      && t'.users[u].isActive
      && Some(t'.users[u].email) == StringClaim(p, "email")
      && Some(t'.users[u].firstName) == StringClaimOr(p, "given_name", "first_name")
      && Some(t'.users[u].lastName) == StringClaimOr(p, "family_name", "last_name")
      && FitsColumns(t'.users[u].username, t'.users[u].email, t'.users[u].firstName, t'.users[u].lastName)
      && (u < |t.users| ==>
            |t'.users| == |t.users| &&
            t'.users[u] == t.users[u].(email := t'.users[u].email, firstName := t'.users[u].firstName,
                                       lastName := t'.users[u].lastName, isActive := true))
      && (u == |t.users| <==> forall k :: 0 <= k < |t.users| ==> t.users[k].username != t'.users[u].username)
      && (u == |t.users| ==> |t'.users| == |t.users| + 1 && t'.users[u] == NewUser(t'.users[u].username,
            t'.users[u].email, t'.users[u].firstName, t'.users[u].lastName))
      && (forall k :: 0 <= k < |t.users| && k != u ==> t'.users[k] == t.users[k])
      && t' == t.(users := t'.users)
  {
  }

  /** Claims that are all strings but too long for their columns give a
      server error and change nothing. */
  lemma SignInTooLong(t: Tables, p: Payload)
    requires UsernameClaim(p).Some? && UsernameClaim(p).value.JStr?
    requires StringClaim(p, "email").Some?
    requires StringClaimOr(p, "given_name", "first_name").Some? && StringClaimOr(p, "family_name", "last_name").Some?
    requires !FitsColumns(UsernameClaim(p).value.s, StringClaim(p, "email").value,
                          StringClaimOr(p, "given_name", "first_name").value, StringClaimOr(p, "family_name", "last_name").value)
    ensures SignInSpec(t, p) == (t, ServerError)
  {
  }

  /** Signing in keeps every table constraint: usernames stay unique. */
  lemma SignInKeepsValid(t: Tables, p: Payload)
    requires ValidTables(t)
    ensures ValidTables(SignInSpec(t, p).0)
  {
    var (t', r) := SignInSpec(t, p);
    if r.Authenticated? {
      SignInFacts(t, p);
      assert ValidUserRow(t'.users[r.user]) by {
        if r.user < |t.users| {
          assert ValidUserRow(t.users[r.user]);
        }
      }
      UpsertKeepsUsersOk(t.users, t'.users, r.user);
    }
  }

  /** Rewriting or appending the row `u` under a username no other row
      holds keeps the user rows valid. */
  lemma UpsertKeepsUsersOk(users: seq<User>, users': seq<User>, u: nat)
    requires UsersOk(users) && u < |users'| && ValidUserRow(users'[u])
    requires |users'| == |users| || (|users'| == |users| + 1 && u == |users|)
    requires forall k :: 0 <= k < |users| && k != u ==> users'[k] == users[k]
    requires u < |users| ==> users'[u].username == users[u].username
    requires u == |users| ==> forall k :: 0 <= k < |users| ==> users[k].username != users'[u].username
    ensures UsersOk(users')
  {
    forall i, j | 0 <= i < j < |users'| ensures users'[i].username != users'[j].username {
      if i != u && j != u {
        assert users'[i] == users[i] && users'[j] == users[j];
      }
    }
  }

  /** A row created by a token sign-in has no `last_login` (the
      authenticator never sets it), so the inactivity sweep never
      deactivates it, however old it is. */
  lemma TokenUserNeverSwept(t: Tables, p: Payload, cutoff: int)
    requires SignInSpec(t, p).1.Authenticated? && SignInSpec(t, p).1.user == |t.users|
    ensures var users := SignInSpec(t, p).0.users;
      |users| == |t.users| + 1 && !Stale(users[|t.users|], cutoff)
      && Swept(users, cutoff)[|t.users|] == users[|t.users|]
  {
    SignInFacts(t, p);
  }
}
