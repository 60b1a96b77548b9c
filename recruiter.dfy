/**
 * `GET /recruiter?key=...`: a recruiter who knows the access key is signed
 * into a demo account, created on first use. The configuration values are
 * inputs (`None` when the variable is not set); so are the password hash,
 * the clock and the encoded session token, which come from library calls.
 */
module Recruiter {
  import opened Js
  import opened Wrappers
  import opened Users
  import Forms

  const DefaultUsername: string := "demo"
  const DefaultEmail: string := "demo@example.com"
  const DemoCode: string := "000000"
  /** One hour in milliseconds. */
  const CodeLifetime: int := 1000 * 60 * 60
  /** Thirty days in seconds: the lifetime of the token and of both cookies. */
  const SessionMaxAge: nat := 30 * 24 * 60 * 60

  // ---------------------------------------------------------------- the gates

  datatype Reply =
    | Refused(status: nat, message: string)
    | SignedIn(location: string, payload: TokenPayload, cookies: seq<Cookie>)

  const NotConfigured: Reply := Refused(501, "Recruiter access is not configured.")
  const InvalidKey: Reply := Refused(403, "Invalid access key.")
  const NoSecret: Reply := Refused(500, "NEXTAUTH_SECRET is not set.")

  /** `x || ""`: a value that is missing or empty reads as empty. */
  function OrEmpty(x: Option<string>): (r: string)
    ensures r == "" <==> x.None? || x.value == ""
    ensures x.Some? ==> r == x.value
  {
    if x.Some? then x.value else ""
  }

  /** The two checks made before the store is touched. */
  function Gate(key: Option<string>, accessKey: Option<string>): (r: Option<Reply>)
    ensures r == Some(NotConfigured) <==> OrEmpty(accessKey) == ""
    ensures r == Some(InvalidKey) <==> OrEmpty(accessKey) != "" && OrEmpty(key) != OrEmpty(accessKey)
    ensures r.None? <==> OrEmpty(accessKey) != "" && OrEmpty(key) == OrEmpty(accessKey)
  {
    if OrEmpty(accessKey) == "" then Some(NotConfigured)
    else if OrEmpty(key) != OrEmpty(accessKey) then Some(InvalidKey)
    else None
  }

  /** Only the configured, non-empty key gets past the gates; a missing key parameter never does. */
  lemma OnlyTheKeyOpens(key: Option<string>, accessKey: Option<string>)
    requires Gate(key, accessKey).None?
    ensures key.Some? && accessKey.Some? && key.value == accessKey.value && key.value != ""
  {
  }

  // ---------------------------------------------------------------- the demo identity

  /** `value?.trim() || fallback` */
  function TrimmedOr(value: Option<string>, fallback: string): (r: string)
    ensures value.None? ==> r == fallback
    ensures value.Some? && Trim(value.value) == "" ==> r == fallback
    ensures value.Some? && Trim(value.value) != "" ==> r == Trim(value.value)
  {
    if value.Some? && Trim(value.value) != "" then Trim(value.value) else fallback
  }

  /** The configured value or the fallback never has surrounding whitespace and is never empty. */
  lemma TrimmedOrIsTrimmed(value: Option<string>, fallback: string)
    requires fallback != "" && IsTrimmed(fallback)
    ensures var r := TrimmedOr(value, fallback);
      r != "" && IsTrimmed(r) && Trim(r) == r
  {
    TrimOfTrimmed(TrimmedOr(value, fallback));
  }

  lemma DefaultsAreTrimmed()
    ensures DefaultUsername != "" && IsTrimmed(DefaultUsername)
    ensures DefaultEmail != "" && IsTrimmed(DefaultEmail)
  {
    assert DefaultUsername[0] == 'd' && DefaultUsername[|DefaultUsername| - 1] == 'o';
    assert DefaultEmail[0] == 'd' && DefaultEmail[|DefaultEmail| - 1] == 'm';
  }

  /** The default demo address is stored as written and passes the schema's e-mail pattern. */
  lemma DefaultEmailPassesPattern()
    ensures SetEmail(DefaultEmail) == DefaultEmail
    ensures EmailPatternMatches(SetEmail(DefaultEmail))
  {
    DefaultsAreTrimmed();
    TrimOfTrimmed(DefaultEmail);
    assert Lower(DefaultEmail) == DefaultEmail by {
      forall k | 0 <= k < |DefaultEmail| ensures !IsUpper(DefaultEmail[k]) {
      }
    }
    var address := DefaultEmail;
    assert IsLabel(address[5..12]) by {
      forall k | 0 <= k < 7 ensures IsAlnum(address[5..12][k]) {
      }
    }
    assert IsCore(address, 4, 12);
    CoreIsMatch(address, 4, 12);
  }

  /** The record created for the demo account: verified, accepting messages, with the fixed code. */
  function DemoUser(username: string, email: string, passwordHash: string, now: int): (d: NewUser)
    ensures d.isVerified == Some(true) && d.isAcceptMessage == Some(true) && d.messages == []
    ensures d.verifyCode == DemoCode && d.verifyCodeExpiry == now + CodeLifetime
  {
    NewUser(username, email, passwordHash, DemoCode, now + CodeLifetime, Some(true), Some(true), [])
  }

  /** A freshly created demo user can receive messages at once. */
  lemma DemoUserCanReceive(id: UserId, username: string, email: string, passwordHash: string, now: int)
    ensures CanReceiveMessages(WithDefaults(id, DemoUser(username, email, passwordHash, now)))
  {
  }

  // ---------------------------------------------------------------- the token and the cookies

  datatype TokenPayload = TokenPayload(
    name: string, email: string, sub: string, id: string,
    isVerified: bool, isAcceptingMessages: bool, username: string)

  /** `String(user._id)`; the `_id` counter is written in decimal. */
  function IdText(id: UserId): (r: string)
    ensures AllDigits(r) && DigitsValue(r) == id
  {
    DecimalRoundTrip(id);
    DecimalString(id)
  }

  /** The claims put in the session token: the account is always presented as verified. */
  function Payload(u: User): (p: TokenPayload)
    ensures p.isVerified && p.isAcceptingMessages == u.isAcceptMessage
    ensures p.name == u.username && p.username == u.username && p.email == u.email
    ensures p.sub == p.id && AllDigits(p.id) && DigitsValue(p.id) == u.id
  {
    DecimalRoundTrip(u.id);
    TokenPayload(u.username, u.email, IdText(u.id), IdText(u.id), true, u.isAcceptMessage, u.username)
  }

  datatype Cookie = Cookie(name: string, value: string, httpOnly: bool, sameSite: string, path: string,
                           secure: bool, maxAge: nat)

  /** The two session cookies, plain and `__Secure-`, both carrying the token for thirty days. */
  function SessionCookies(token: string): (cs: seq<Cookie>)
    ensures |cs| == 2 && !cs[0].secure && cs[1].secure
    ensures forall c :: c in cs ==> c.value == token && c.httpOnly && c.path == "/" && c.maxAge == SessionMaxAge
  {
    [Cookie("next-auth.session-token", token, true, "lax", "/", false, SessionMaxAge),
     Cookie("__Secure-next-auth.session-token", token, true, "lax", "/", true, SessionMaxAge)]
  }

  lemma SessionMaxAgeIsThirtyDays()
    ensures SessionMaxAge == 2592000
  {
  }

  // ---------------------------------------------------------------- the handler

  /**
   * After the gates, once the demo user is known: without a secret there is
   * no session. The redirect keeps only its path: the absolute URL built on
   * the request's origin and the redirect status are not modelled.
   */
  function Finish(u: User, secret: Option<string>, token: string): (r: Reply)
    ensures r.Refused? <==> OrEmpty(secret) == ""
    ensures r.Refused? ==> r == NoSecret
    ensures r.SignedIn? ==> r.location == "/dashboard" && r.payload == Payload(u) && r.cookies == SessionCookies(token)
  {
    if OrEmpty(secret) == "" then NoSecret
    else SignedIn("/dashboard", Payload(u), SessionCookies(token))
  }

  /**
   * The handler. `key` is the query parameter, `accessKey`, `username`,
   * `email` and `secret` the configuration, `passwordHash` the bcrypt hash
   * of the demo password, `now` the clock and `token` what the token
   * encoder returns for the payload.
   */
  method RecruiterLogin(store: UserStore, key: Option<string>, accessKey: Option<string>,
                        username: Option<string>, email: Option<string>, secret: Option<string>,
                        passwordHash: string, now: int, token: string) returns (reply: Reply)
    requires store.Valid()
    modifies store
    ensures store.Valid()
    ensures Gate(key, accessKey).Some? ==>
      reply == Gate(key, accessKey).value && store.users == old(store.users) && store.nextId == old(store.nextId)
    ensures Gate(key, accessKey).None? ==>
      var name := TrimmedOr(username, DefaultUsername);
      var address := TrimmedOr(email, DefaultEmail);
      match FindOne(old(store.users), ByUsername(name))
      case Some(i) =>
        store.users == old(store.users) && store.nextId == old(store.nextId)
        && reply == Finish(old(store.users)[i], secret, token)
      case None =>
        match CreateOutcome(old(store.users), old(store.nextId), DemoUser(name, address, passwordHash, now))
        case Ok(u) =>
          store.users == old(store.users) + [u] && store.nextId == old(store.nextId) + 1
          && reply == Finish(u, secret, token)
        case Err(e) =>
          store.users == old(store.users) && store.nextId == old(store.nextId)
          && reply == Refused(500, ErrorText(e))
  {
    var gate := Gate(key, accessKey);
    if gate.Some? {
      return gate.value;
    }
    var name := TrimmedOr(username, DefaultUsername);
    var address := TrimmedOr(email, DefaultEmail);
    var found := FindOne(store.users, ByUsername(name));
    var u: User;
    match found {
      case Some(i) =>
        u := store.users[i];
      case None =>
        var created := store.Create(DemoUser(name, address, passwordHash, now));
        match created {
          case Err(e) =>
            return Refused(500, ErrorText(e));
          case Ok(v) =>
            u := v;
        }
    }
    reply := Finish(u, secret, token);
  }
}
