/**
 * The registration handler (`POST /api/sign-up`). A taken username is
 * refused; an e-mail that belongs to a verified user is refused; an e-mail
 * that belongs to an unverified user gets a fresh password, code and
 * expiry; otherwise a new user is created. The password hash, the random
 * draw behind the code, the clock and the outcome of sending the e-mail
 * are inputs.
 */
module SignUp {
  import opened Js
  import opened Wrappers
  import opened Users
  import Forms

  /** One hour in milliseconds: how long a verification code lasts. */
  const CodeLifetime: int := 3600000

  // ---------------------------------------------------------------- the verification code

  /** `Math.floor(100000 + Math.random() * 900000)` for a draw `r` in [0, 1). */
  function CodeNumber(r: real): (n: int)
    requires 0.0 <= r < 1.0
    ensures 100000 <= n <= 999999
  {
    var x := 100000.0 + r * 900000.0;
    assert 100000.0 <= x < 1000000.0;
    x.Floor
  }

  /** The code as the string sent to the user and stored on the record. */
  function VerifyCode(r: real): string
    requires 0.0 <= r < 1.0
  {
    DecimalString(CodeNumber(r))
  }

  /** Every issued code is a six-digit string the verify form accepts, and reads back as the drawn number. */
  lemma VerifyCodeIsSixDigits(r: real)
    requires 0.0 <= r < 1.0
    ensures Forms.VerifyCodeRule(VerifyCode(r))
    ensures DigitsValue(VerifyCode(r)) == CodeNumber(r)
  {
    assert Pow10(5) == 100000 && Pow10(6) == 1000000;
    DecimalLength(CodeNumber(r), 6);
    DecimalRoundTrip(CodeNumber(r));
  }

  // ---------------------------------------------------------------- replies

  datatype Reply = Reply(status: nat, success: bool, message: string, emailError: Option<string>)

  /** What sending the verification e-mail reported. */
  datatype MailOutcome = Delivered | NotDelivered(message: string)

  const UsernameTaken: Reply := Reply(400, false, "Username is already taken", None)
  const AlreadyExists: Reply := Reply(500, false, "The user already exists", None)

  const CheckYourMail: string := "User registered successfully. Please check your email for verification code."
  const MailFailed: string :=
    "User registered successfully, but verification email failed to send. Please try again or contact support."
  const UsernameIndex: string := "username_1"
  const EmailIndex: string := "email_1"
  const DuplicateUsername: string := "Username is already taken. Please choose a different username."
  const DuplicateEmail: string := "Email is already registered. Please use a different email or try signing in."
  const RegistrationFailed: string := "Error registering user. Please try again."

  /** The 201 reply; a failed e-mail is reported beside the success. */
  function Registered(mail: MailOutcome): (r: Reply)
    ensures r.status == 201 && r.success
    ensures r.emailError.Some? <==> mail.NotDelivered?
    ensures mail.NotDelivered? ==> r.emailError == Some(mail.message)
  {
    match mail
    case Delivered => Reply(201, true, CheckYourMail, None)
    case NotDelivered(m) => Reply(201, true, MailFailed, Some(m))
  }

  /** The reply for an error thrown while registering: its text decides between 400 and 500. */
  function ErrorReply(message: string): (r: Reply)
    ensures !r.success && r.emailError.None?
    ensures r.status == 400 <==>
      Contains(message, DuplicateKeyError) && (Contains(message, UsernameIndex) || Contains(message, EmailIndex))
    ensures r.status != 400 ==> r.status == 500
  {
    if Contains(message, DuplicateKeyError) && Contains(message, UsernameIndex) then
      Reply(400, false, DuplicateUsername, None)
    else if Contains(message, DuplicateKeyError) && Contains(message, EmailIndex) then
      Reply(400, false, DuplicateEmail, None)
    else
      Reply(500, false, RegistrationFailed, None)
  }

  /** A duplicate key on the username or e-mail index is the client's fault. */
  lemma DuplicateKeyIsClientError(index: string)
    requires Contains(index, UsernameIndex) || Contains(index, EmailIndex)
    ensures ErrorReply(ErrorText(DuplicateKey(index))).status == 400
  {
    var text := ErrorText(DuplicateKey(index));
    var head := DuplicateKeyError + " collection: users index: ";
    var tail := " collection: users index: " + index + " dup key";
    assert text == DuplicateKeyError + tail;
    ContainsPrefix(DuplicateKeyError, tail);
    assert text == head + index + " dup key";
    if Contains(index, UsernameIndex) {
      ContainsWithin(head, index, " dup key", UsernameIndex);
    } else {
      ContainsWithin(head, index, " dup key", EmailIndex);
    }
  }

  /** A failed validation is a server error, whatever the path. */
  lemma ValidationErrorIsServerError(path: string)
    requires 'E' !in path
    ensures ErrorReply(ErrorText(ValidationError(path))).status == 500
  {
    var text := ErrorText(ValidationError(path));
    if Contains(text, DuplicateKeyError) {
      ContainsHead(text, DuplicateKeyError);
      assert false;
    }
  }

  // ---------------------------------------------------------------- records

  /** The fields the handler overwrites on an unverified user before saving it again. */
  function Refresh(u: User, passwordHash: string, code: string, expiry: int): User {
    u.(password := passwordHash, verifyCode := code, verifyCodeExpiry := expiry)
  }

  /** The new user the handler builds: unverified, accepting messages, with no messages. */
  function Fresh(username: string, email: string, passwordHash: string, code: string, expiry: int): NewUser {
    NewUser(username, email, passwordHash, code, expiry, Some(false), Some(true), [])
  }

  /** Refreshing touches only the password, the code and its expiry. */
  lemma RefreshChangesOnlyCredentials(u: User, passwordHash: string, code: string, expiry: int)
    ensures var v := Refresh(u, passwordHash, code, expiry);
      v.password == passwordHash && v.verifyCode == code && v.verifyCodeExpiry == expiry
      && v.(password := u.password, verifyCode := u.verifyCode, verifyCodeExpiry := u.verifyCodeExpiry) == u
  {
  }

  /** The issued code is accepted for exactly the hour after `now`, on a refreshed or a new user. */
  lemma IssuedCodeLastsAnHour(u: User, passwordHash: string, code: string, now: int, id: UserId, t: int)
    ensures var v := Refresh(u, passwordHash, code, now + CodeLifetime);
      IsVerificationCodeValid(v, code, t) <==> t < now + CodeLifetime
    ensures var w := WithDefaults(id, Fresh(u.username, u.email, passwordHash, code, now + CodeLifetime));
      (IsVerificationCodeValid(w, code, t) <==> t < now + CodeLifetime)
      && !w.isVerified && w.isAcceptMessage && w.messages == [] && !CanReceiveMessages(w)
  {
  }

  // ---------------------------------------------------------------- the handler

  /**
   * `POST /api/sign-up` with the body's username and e-mail. `passwordHash`
   * is what bcrypt makes of the body's password, `draw` the value of
   * `Math.random()`, `now` the clock in milliseconds and `mail` the result
   * of sending the code.
   */
  method Register(store: UserStore, username: string, email: string, passwordHash: string,
                  draw: real, now: int, mail: MailOutcome) returns (reply: Reply)
    requires store.Valid() && 0.0 <= draw < 1.0
    modifies store
    ensures store.Valid()
    ensures FindOne(old(store.users), ByUsername(username)).Some? ==>
      reply == UsernameTaken && store.users == old(store.users) && store.nextId == old(store.nextId)
    ensures FindOne(old(store.users), ByUsername(username)).None? ==>
      match FindOne(old(store.users), ByEmail(email))
      case Some(i) =>
        if old(store.users)[i].isVerified then
          reply == AlreadyExists && store.users == old(store.users) && store.nextId == old(store.nextId)
        else
          reply == Registered(mail) && store.nextId == old(store.nextId)
          && store.users == old(store.users)[i := Refresh(old(store.users)[i], passwordHash, VerifyCode(draw), now + CodeLifetime)]
      case None =>
        match CreateOutcome(old(store.users), old(store.nextId), Fresh(username, email, passwordHash, VerifyCode(draw), now + CodeLifetime))
        case Ok(u) =>
          reply == Registered(mail) && store.users == old(store.users) + [u] && store.nextId == old(store.nextId) + 1
        case Err(e) =>
          reply == ErrorReply(ErrorText(e)) && store.users == old(store.users) && store.nextId == old(store.nextId)
  {
    if FindOne(store.users, ByUsername(username)).Some? {
      return UsernameTaken;
    }
    var code := VerifyCode(draw);
    var byEmail := FindOne(store.users, ByEmail(email));
    match byEmail
    case Some(i) =>
      if store.users[i].isVerified {
        return AlreadyExists;
      }
      var u := Refresh(store.users[i], passwordHash, code, now + CodeLifetime);
      ReplaceKeepsConsistent(store.users, store.nextId, i, u);
      store.users := store.users[i := u];
      reply := Registered(mail);
    case None =>
      var created := store.Create(Fresh(username, email, passwordHash, code, now + CodeLifetime));
      match created
      case Err(e) =>
        reply := ErrorReply(ErrorText(e));
      case Ok(_) =>
        reply := Registered(mail);
  }

  /**
   * Once neither lookup found a record, creating the user can fail only on
   * validation: of the username the schema rejects, or of an e-mail that is
   * empty or fails the schema's pattern.
   */
  lemma CreateFailsOnlyOnValidation(users: seq<User>, nextId: nat, d: NewUser)
    requires FindOne(users, ByUsername(d.username)).None? && FindOne(users, ByEmail(d.email)).None?
    requires CreateOutcome(users, nextId, d).Err?
    ensures CreateOutcome(users, nextId, d).error.ValidationError?
    ensures CreateOutcome(users, nextId, d).error.path == "username" || CreateOutcome(users, nextId, d).error.path == "email"
  {
    if !Forms.UsernameRule(SetUsername(d.username)) {
      assert CreateOutcome(users, nextId, d) == Err(ValidationError("username"));
    } else {
      assert CreateOutcome(users, nextId, d) == Err(ValidationError("email"));
    }
  }

  /** Both validation failures `Create` can raise are answered with 500. */
  lemma SchemaFailuresAreServerErrors()
    ensures ErrorReply(ErrorText(ValidationError("username"))).status == 500
    ensures ErrorReply(ErrorText(ValidationError("email"))).status == 500
  {
    var username, email := "username", "email";
    assert 'E' !in username && 'E' !in email;
    ValidationErrorIsServerError(username);
    ValidationErrorIsServerError(email);
  }
}
