/**
 * The user model: the user record with its defaults, the instance
 * predicates and virtual fields, and the model's update statics, which
 * change one stored record found by `_id`. The collection is a sequence of
 * records in insertion order; a `findOne` returns the first record that
 * matches, and new `_id`s come from a counter.
 */
module Users {
  import opened Js
  import opened Wrappers
  import opened Messages
  import Forms

  type UserId = nat

  datatype User = User(
    id: UserId,
    username: string,
    email: string,
    password: string,
    verifyCode: string,
    verifyCodeExpiry: int,
    isVerified: bool,
    isAcceptMessage: bool,
    messages: seq<Message>)

  /** The data a user is created from; a flag left out takes the schema's default. */
  datatype NewUser = NewUser(
    username: string,
    email: string,
    password: string,
    verifyCode: string,
    verifyCodeExpiry: int,
    isVerified: Option<bool>,
    isAcceptMessage: Option<bool>,
    messages: seq<Message>)

  /** The `username` path's setter: `trim`. */
  function SetUsername(s: string): string {
    Trim(s)
  }

  /** The `email` path's setters, in the order declared: `trim`, then `lowercase`. */
  function SetEmail(s: string): string {
    Lower(Trim(s))
  }

  /** Lower-casing keeps a trimmed string trimmed: only letters change. */
  lemma LowerKeepsTrimmed(s: string)
    requires IsTrimmed(s)
    ensures IsTrimmed(Lower(s))
  {
    if s != [] {
      assert !IsSpace(LowerChar(s[0])) && !IsSpace(LowerChar(s[|s| - 1]));
    }
  }

  /** A stored username is unchanged by its setter: setting twice is setting once. */
  lemma SetUsernameIdempotent(s: string)
    ensures SetUsername(SetUsername(s)) == SetUsername(s)
  {
    TrimIdempotent(s);
  }

  /** A username the sign-up form accepts passes the schema's rule and is stored exactly as typed. */
  lemma FormUsernameIsStoredAsTyped(name: string)
    requires Forms.UsernameRule(name)
    ensures SetUsername(name) == name && Forms.UsernameRule(SetUsername(name))
  {
    WordCharIsNoSpace(name[0]);
    WordCharIsNoSpace(name[|name| - 1]);
    TrimOfTrimmed(name);
  }

  lemma WordCharIsNoSpace(c: char)
    requires IsWordChar(c)
    ensures !IsSpace(c)
  {
  }

  /** A stored e-mail is unchanged by its setters: setting twice is setting once. */
  lemma SetEmailIdempotent(s: string)
    ensures SetEmail(SetEmail(s)) == SetEmail(s)
  {
    var t := Trim(s);
    var l := Lower(t);
    LowerKeepsTrimmed(t);
    TrimOfTrimmed(l);
    LowerIdempotent(t);
    assert SetEmail(l) == Lower(Trim(l)) == Lower(l) == l;
  }

  // ---------------------------------------------------------------- the e-mail pattern

  /** `[a-z0-9!#$%&'*+/=?^_`{|}~-]` */
  predicate IsAtext(c: char) {
    IsLower(c) || IsDigit(c) || c in "!#$%&'*+/=?^_`{|}~-"
  }

  /** `[a-z0-9]` */
  predicate IsAlnum(c: char) {
    IsLower(c) || IsDigit(c)
  }

  /** `[a-z0-9!#...-]+(?:\.[a-z0-9!#...-]+)*`: atext runs joined by single dots. */
  predicate IsLocalPart(w: string) {
    && |w| >= 1 && IsAtext(w[0]) && IsAtext(w[|w| - 1])
    && (forall k :: 0 <= k < |w| ==> IsAtext(w[k]) || w[k] == '.')
    && (forall k :: 0 <= k < |w| - 1 && w[k] == '.' ==> w[k + 1] != '.')
  }

  /** `[a-z0-9](?:[a-z0-9-]*[a-z0-9])?` */
  predicate IsLabel(w: string) {
    && |w| >= 1 && IsAlnum(w[0]) && IsAlnum(w[|w| - 1])
    && forall k :: 0 <= k < |w| ==> IsAlnum(w[k]) || w[k] == '-'
  }

  /** `(?:label\.)+label`: a label and a dot, then either the last label or more of the same. */
  predicate IsDomain(w: string)
    decreases |w|, 1
  {
    exists k | 0 < k < |w| - 1 :: IsDomainStep(w, k)
  }

  /** The domain `w` begins with the label `w[..k]` and the dot at `k`. */
  predicate IsDomainStep(w: string, k: int)
    requires 0 < k < |w| - 1
    decreases |w|, 0
  {
    w[k] == '.' && IsLabel(w[..k]) && (IsLabel(w[k + 1..]) || IsDomain(w[k + 1..]))
  }

  /** The e-mail pattern of the `email` path matches `s[i..j]`, with its `@` at `at`. */
  predicate IsEmailMatch(s: string, i: int, at: int, j: int) {
    && 0 <= i < at < j <= |s| && s[at] == '@'
    && IsLocalPart(s[i..at]) && IsDomain(s[at + 1..j])
  }

  /**
   * The `match` validator of the `email` path: the pattern is not anchored,
   * and the validator resets the `g` flag's `lastIndex` before `test`, so
   * the address passes when the pattern matches anywhere in it.
   */
  predicate EmailPatternMatches(s: string) {
    exists i, at, j | 0 <= i < |s| && 0 <= at < |s| && 0 <= j <= |s| :: IsEmailMatch(s, i, at, j)
  }

  /** The smallest text the pattern matches, with its `@` at `at` and its dot at `dot`. */
  predicate IsCore(s: string, at: int, dot: int) {
    && 0 < at && at + 1 < dot < |s| - 1 && s[at] == '@' && IsAtext(s[at - 1])
    && s[dot] == '.' && IsLabel(s[at + 1..dot]) && IsAlnum(s[dot + 1])
  }

  /** Some place holds the smallest match: an atext character, `@`, a label, a dot and a letter or digit. */
  predicate HasAddressCore(s: string) {
    exists at, dot | 0 < at < |s| && 0 < dot < |s| :: IsCore(s, at, dot)
  }

  lemma DomainStartsWithAlnum(w: string)
    requires IsDomain(w)
    ensures |w| >= 3 && IsAlnum(w[0])
  {
    var k :| 0 < k < |w| - 1 && IsDomainStep(w, k);
    assert w[..k][0] == w[0];
  }

  /** Every match begins its domain with a label, a dot and a letter or digit, after an atext character and `@`. */
  lemma MatchHasCore(s: string, i: int, at: int, j: int)
    requires IsEmailMatch(s, i, at, j)
    ensures HasAddressCore(s)
  {
    var w := s[at + 1..j];
    assert IsDomain(w);
    var k :| 0 < k < |w| - 1 && IsDomainStep(w, k);
    if !IsLabel(w[k + 1..]) {
      DomainStartsWithAlnum(w[k + 1..]);
    }
    var dot := at + 1 + k;
    assert IsAlnum(s[dot + 1]) by { assert w[k + 1..][0] == s[dot + 1]; }
    assert IsAtext(s[at - 1]) by { assert s[i..at][at - i - 1] == s[at - 1]; }
    assert IsLabel(s[at + 1..dot]) by { assert w[..k] == s[at + 1..dot]; }
    assert IsCore(s, at, dot);
  }

  /** The core, with the character before the `@`, is a match by itself. */
  lemma CoreIsMatch(s: string, at: int, dot: int)
    requires IsCore(s, at, dot)
    ensures IsEmailMatch(s, at - 1, at, dot + 2)
  {
    var w := s[at + 1..dot + 2];
    var k := dot - at - 1;
    assert w[..k] == s[at + 1..dot] && w[k] == '.';
    assert IsLabel(w[k + 1..]) by { assert w[k + 1..] == [s[dot + 1]]; }
    assert IsDomainStep(w, k);
    assert IsLocalPart(s[at - 1..at]) by { assert s[at - 1..at] == [s[at - 1]]; }
  }

  /**
   * The pattern matches somewhere exactly when the text holds the smallest
   * match: every match holds the core, and the core is a match.
   */
  lemma EmailPatternCore(s: string)
    ensures EmailPatternMatches(s) <==> HasAddressCore(s)
  {
    if EmailPatternMatches(s) {
      var i, at, j :| IsEmailMatch(s, i, at, j);
      MatchHasCore(s, i, at, j);
    }
    if HasAddressCore(s) {
      var at, dot :| IsCore(s, at, dot);
      CoreIsMatch(s, at, dot);
    }
  }

  /** An address without `@` fails the pattern. */
  lemma NoAtFailsPattern(s: string)
    requires forall k :: 0 <= k < |s| ==> s[k] != '@'
    ensures !EmailPatternMatches(s)
  {
    EmailPatternCore(s);
  }

  /** The pattern is not anchored: text around a matching address does not stop it matching. */
  lemma PatternIgnoresSurroundings(p: string, s: string, q: string)
    requires EmailPatternMatches(s)
    ensures EmailPatternMatches(p + s + q)
  {
    var i, at, j :| 0 <= i < |s| && 0 <= at < |s| && 0 <= j <= |s| && IsEmailMatch(s, i, at, j);
    ShiftedMatch(p, s, q, i, at, j);
  }

  lemma ShiftedMatch(p: string, s: string, q: string, i: int, at: int, j: int)
    requires IsEmailMatch(s, i, at, j)
    ensures IsEmailMatch(p + s + q, |p| + i, |p| + at, |p| + j)
  {
    var t := p + s + q;
    assert t[|p| + i..|p| + at] == s[i..at];
    assert t[|p| + at + 1..|p| + j] == s[at + 1..j];
  }

  /** The record the schema builds: the setters applied, `isVerified` defaulting to false, `isAcceptMessage` to true. */
  function WithDefaults(id: UserId, d: NewUser): (u: User)
    ensures u.id == id && u.username == SetUsername(d.username) && u.email == SetEmail(d.email)
    ensures u.password == d.password
    ensures u.verifyCode == d.verifyCode && u.verifyCodeExpiry == d.verifyCodeExpiry && u.messages == d.messages
    ensures d.isVerified.None? ==> !u.isVerified
    ensures d.isAcceptMessage.None? ==> u.isAcceptMessage
    ensures d.isVerified.Some? ==> u.isVerified == d.isVerified.value
    ensures d.isAcceptMessage.Some? ==> u.isAcceptMessage == d.isAcceptMessage.value
  {
    User(id, SetUsername(d.username), SetEmail(d.email), d.password, d.verifyCode, d.verifyCodeExpiry,
         if d.isVerified.Some? then d.isVerified.value else false,
         if d.isAcceptMessage.Some? then d.isAcceptMessage.value else true,
         d.messages)
  }

  // ---------------------------------------------------------------- instance methods and virtuals

  /** `isVerificationCodeValid(code)`: the stored code is `code` and has not expired at `now`. */
  predicate IsVerificationCodeValid(u: User, code: string, now: int) {
    u.verifyCode == code && u.verifyCodeExpiry > now
  }

  /** A code that is valid now was valid at every earlier instant and fails at and after its expiry. */
  lemma CodeValidityWindow(u: User, code: string, now: int, earlier: int)
    requires IsVerificationCodeValid(u, code, now) && earlier <= now
    ensures IsVerificationCodeValid(u, code, earlier)
    ensures !IsVerificationCodeValid(u, code, u.verifyCodeExpiry)
    ensures forall other: string :: other != code ==> !IsVerificationCodeValid(u, other, now)
  {
  }

  /** `canReceiveMessages()` */
  predicate CanReceiveMessages(u: User) {
    u.isVerified && u.isAcceptMessage
  }

  /** What `getPublicProfile()` exposes. */
  datatype Profile = Profile(username: string, isAcceptMessage: bool)

  function PublicProfile(u: User): (p: Profile)
    ensures p.username == u.username && p.isAcceptMessage == u.isAcceptMessage
  {
    Profile(u.username, u.isAcceptMessage)
  }

  /** Two users that agree on name and flag have the same public profile, whatever else they hold. */
  lemma PublicProfileHidesTheRest(u: User, v: User)
    requires u.username == v.username && u.isAcceptMessage == v.isAcceptMessage
    ensures PublicProfile(u) == PublicProfile(v)
  {
  }

  /** The `profileUrl` virtual. */
  function ProfileUrl(u: User): (url: string)
    ensures |url| == |u.username| + 3 && url[..3] == "/u/" && url[3..] == u.username
  {
    "/u/" + u.username
  }

  /** Different usernames give different profile links. */
  lemma ProfileUrlInjective(u: User, v: User)
    requires ProfileUrl(u) == ProfileUrl(v)
    ensures u.username == v.username
  {
    assert u.username == ProfileUrl(u)[3..];
  }

  /** The `messageCount` virtual. */
  function MessageCount(u: User): (n: nat)
    ensures n == 0 <==> u.messages == []
  {
    |u.messages|
  }

  // ---------------------------------------------------------------- record updates

  /** `{ isVerified }`: the flag is set and every other field stays. */
  function SetVerified(u: User, isVerified: bool): (r: User)
    ensures r.isVerified == isVerified && r.(isVerified := u.isVerified) == u
  {
    u.(isVerified := isVerified)
  }

  /** `{ isAcceptMessage }`: the flag is set and every other field stays. */
  function SetAcceptance(u: User, isAcceptMessage: bool): (r: User)
    ensures r.isAcceptMessage == isAcceptMessage && r.(isAcceptMessage := u.isAcceptMessage) == u
  {
    u.(isAcceptMessage := isAcceptMessage)
  }

  /** `$push: { messages: m }` */
  function PushMessage(u: User, m: Message): User {
    u.(messages := u.messages + [m])
  }

  /** `$pull: { messages: { _id: id } }` */
  function PullMessage(u: User, id: MessageId): User {
    u.(messages := WithoutId(u.messages, id))
  }

  /** The messages whose `_id` is not `id`, in their order. */
  function WithoutId(ms: seq<Message>, id: MessageId): (r: seq<Message>)
    ensures |r| <= |ms|
  {
    if ms == [] then [] else (if ms[0].id == id then [] else [ms[0]]) + WithoutId(ms[1..], id)
  }

  function CountId(ms: seq<Message>, id: MessageId): nat {
    if ms == [] then 0 else (if ms[0].id == id then 1 else 0) + CountId(ms[1..], id)
  }

  /** Setting the flag twice is setting it once, and nothing but the flag changes. */
  lemma SetAcceptanceIdempotent(u: User, b: bool)
    ensures SetAcceptance(SetAcceptance(u, b), b) == SetAcceptance(u, b)
    ensures var v := SetAcceptance(u, b);
      v.isAcceptMessage == b && v.(isAcceptMessage := u.isAcceptMessage) == u
    ensures CanReceiveMessages(SetAcceptance(u, b)) <==> u.isVerified && b
  {
  }

  /** A pushed message becomes the last one; the earlier ones stay where they were. */
  lemma PushMessageAppends(u: User, m: Message)
    ensures MessageCount(PushMessage(u, m)) == MessageCount(u) + 1
    ensures PushMessage(u, m).messages[|u.messages|] == m
    ensures PushMessage(u, m).messages[..|u.messages|] == u.messages
    ensures PushMessage(u, m).(messages := u.messages) == u
  {
  }

  /** Exactly the messages with that `_id` are removed. */
  lemma {:induction false} WithoutIdMembers(ms: seq<Message>, id: MessageId)
    ensures forall m :: m in WithoutId(ms, id) <==> m in ms && m.id != id
  {
    if ms != [] {
      WithoutIdMembers(ms[1..], id);
      assert ms == [ms[0]] + ms[1..];
    }
  }

  /** Removal works piece by piece, so the remaining messages keep their order. */
  lemma {:induction false} WithoutIdAppend(a: seq<Message>, b: seq<Message>, id: MessageId)
    ensures WithoutId(a + b, id) == WithoutId(a, id) + WithoutId(b, id)
  {
    if a == [] {
      assert a + b == b;
    } else {
      assert (a + b)[1..] == a[1..] + b;
      WithoutIdAppend(a[1..], b, id);
    }
  }

  /** Removing an `_id` that no message has leaves the list as it was. */
  lemma {:induction false} WithoutAbsentId(ms: seq<Message>, id: MessageId)
    requires forall i :: 0 <= i < |ms| ==> ms[i].id != id
    ensures WithoutId(ms, id) == ms
  {
    if ms != [] {
      WithoutAbsentId(ms[1..], id);
    }
  }

  /** The list shrinks by the number of messages carrying that `_id`. */
  lemma {:induction false} WithoutIdCount(ms: seq<Message>, id: MessageId)
    ensures |WithoutId(ms, id)| == |ms| - CountId(ms, id)
  {
    if ms != [] {
      WithoutIdCount(ms[1..], id);
    }
  }

  // ---------------------------------------------------------------- the collection

  datatype Key = ById(id: UserId) | ByUsername(name: string) | ByEmail(address: string)

  predicate Matches(u: User, k: Key) {
    match k
    case ById(id) => u.id == id
    case ByUsername(name) => u.username == name
    case ByEmail(address) => u.email == address
  }

  /** The index of the first record matching `k`, at or after `from`. */
  function FindFrom(users: seq<User>, k: Key, from: nat): (r: Option<nat>)
    requires from <= |users|
    ensures r.Some? ==> (from <= r.value < |users| && Matches(users[r.value], k)
      && forall j :: from <= j < r.value ==> !Matches(users[j], k))
    ensures r.None? ==> forall j :: from <= j < |users| ==> !Matches(users[j], k)
    decreases |users| - from
  {
    if from == |users| then None
    else if Matches(users[from], k) then Some(from)
    else FindFrom(users, k, from + 1)
  }

  /** `findOne(k)` as an index into the collection. */
  function FindFirst(users: seq<User>, k: Key): (r: Option<nat>)
    ensures r.Some? ==> (r.value < |users| && Matches(users[r.value], k)
      && forall j :: 0 <= j < r.value ==> !Matches(users[j], k))
    ensures r.None? ==> forall j :: 0 <= j < |users| ==> !Matches(users[j], k)
  {
    FindFrom(users, k, 0)
  }

  /** `findById(id)` */
  function Lookup(users: seq<User>, k: Key): (r: Option<User>)
    ensures r.Some? ==> r.value in users && Matches(r.value, k)
    ensures r.None? <==> forall j :: 0 <= j < |users| ==> !Matches(users[j], k)
  {
    match FindFirst(users, k)
    case None => None
    case Some(i) => Some(users[i])
  }

  /** A query value is cast with its path's setters before it is compared. */
  function Cast(k: Key): (r: Key)
    ensures r.ById? == k.ById? && r.ByUsername? == k.ByUsername? && r.ByEmail? == k.ByEmail?
    ensures k.ById? ==> r == k
  {
    match k
    case ById(_) => k
    case ByUsername(name) => ByUsername(SetUsername(name))
    case ByEmail(address) => ByEmail(SetEmail(address))
  }

  /** Casting an already cast value changes nothing: the setters are idempotent. */
  lemma CastIdempotent(k: Key)
    ensures Cast(Cast(k)) == Cast(k)
  {
    match k {
      case ById(_) =>
      case ByUsername(name) => SetUsernameIdempotent(name);
      case ByEmail(address) => SetEmailIdempotent(address);
    }
  }

  /** `findOne(k)`, as an index into the collection. */
  function FindOne(users: seq<User>, k: Key): (r: Option<nat>)
    ensures r.Some? ==> r.value < |users| && Matches(users[r.value], Cast(k))
    ensures r.None? <==> forall j :: 0 <= j < |users| ==> !Matches(users[j], Cast(k))
  {
    FindFirst(users, Cast(k))
  }

  /** A record is found again by its own username or e-mail, however the query was written before casting. */
  lemma FindOneFindsStored(users: seq<User>, nextId: nat, i: nat, name: string, address: string)
    requires Consistent(users, nextId) && i < |users|
    requires SetUsername(name) == users[i].username && SetEmail(address) == users[i].email
    ensures FindOne(users, ByUsername(name)) == Some(i) && FindOne(users, ByEmail(address)) == Some(i)
  {
    LookupIsUnique(users, nextId, i);
  }

  /** The unique indexes hold and every `_id` was handed out by the counter. */
  ghost predicate Consistent(users: seq<User>, nextId: nat) {
    && (forall i :: 0 <= i < |users| ==> users[i].id < nextId)
    && (forall i, j :: 0 <= i < j < |users| ==>
          users[i].id != users[j].id && users[i].username != users[j].username && users[i].email != users[j].email)
  }

  /** Replacing a record by one with the same `_id`, username and e-mail keeps the indexes intact. */
  lemma ReplaceKeepsConsistent(users: seq<User>, nextId: nat, i: nat, u: User)
    requires Consistent(users, nextId) && i < |users|
    requires u.id == users[i].id && u.username == users[i].username && u.email == users[i].email
    ensures Consistent(users[i := u], nextId)
  {
  }

  /** In a consistent collection a record is the only one with its username, e-mail and `_id`. */
  lemma LookupIsUnique(users: seq<User>, nextId: nat, i: nat)
    requires Consistent(users, nextId) && i < |users|
    ensures FindFirst(users, ById(users[i].id)) == Some(i)
    ensures FindFirst(users, ByUsername(users[i].username)) == Some(i)
    ensures FindFirst(users, ByEmail(users[i].email)) == Some(i)
  {
  }

  datatype DbError = ValidationError(path: string) | DuplicateKey(index: string)

  const ValidationFailed: string := "User validation failed: "
  const DuplicateKeyError: string := "E11000 duplicate key error"

  /** The text of the error the driver raises. */
  function ErrorText(e: DbError): string {
    match e
    case ValidationError(path) => ValidationFailed + path
    case DuplicateKey(index) => DuplicateKeyError + " collection: users index: " + index + " dup key"
  }

  /**
   * The user records, with the model's statics that change them. Each
   * update finds its record by `_id` and, like `findByIdAndUpdate` with
   * `new: true`, returns the updated record, or nothing when no record has
   * that `_id`.
   */
  class UserStore {
    var users: seq<User>
    var nextId: nat

    ghost predicate Valid()
      reads this
    {
      Consistent(users, nextId)
    }

    constructor ()
      ensures Valid() && users == [] && nextId == 0
    {
      users := [];
      nextId := 0;
    }

    /** `updateVerificationStatus(userId, isVerified)` */
    method UpdateVerificationStatus(id: UserId, isVerified: bool) returns (r: Option<User>)
      requires Valid()
      modifies this
      ensures Valid() && nextId == old(nextId)
      ensures match FindFirst(old(users), ById(id))
        case None => r.None? && users == old(users)
        case Some(i) => users == old(users)[i := SetVerified(old(users)[i], isVerified)] && r == Some(users[i])
    {
      var found := FindFirst(users, ById(id));
      match found
      case None => r := None;
      case Some(i) =>
        ReplaceKeepsConsistent(users, nextId, i, SetVerified(users[i], isVerified));
        users := users[i := SetVerified(users[i], isVerified)];
        r := Some(users[i]);
    }

    /** `updateMessageAcceptance(userId, isAcceptMessage)` */
    method UpdateMessageAcceptance(id: UserId, isAcceptMessage: bool) returns (r: Option<User>)
      requires Valid()
      modifies this
      ensures Valid() && nextId == old(nextId)
      ensures match FindFirst(old(users), ById(id))
        case None => r.None? && users == old(users)
        case Some(i) => users == old(users)[i := SetAcceptance(old(users)[i], isAcceptMessage)] && r == Some(users[i])
    {
      var found := FindFirst(users, ById(id));
      match found
      case None => r := None;
      case Some(i) =>
        ReplaceKeepsConsistent(users, nextId, i, SetAcceptance(users[i], isAcceptMessage));
        users := users[i := SetAcceptance(users[i], isAcceptMessage)];
        r := Some(users[i]);
    }

    /** `findOneAndUpdate({}, { isAcceptMessage }, { new: true })`: the first record in natural order takes the flag. */
    method UpdateFirstAcceptance(isAcceptMessage: bool) returns (r: Option<User>)
      requires Valid()
      modifies this
      ensures Valid() && nextId == old(nextId)
      ensures old(users) == [] ==> r.None? && users == old(users)
      ensures old(users) != [] ==>
        users == old(users)[0 := SetAcceptance(old(users)[0], isAcceptMessage)] && r == Some(users[0])
    {
      if users == [] {
        r := None;
      } else {
        ReplaceKeepsConsistent(users, nextId, 0, SetAcceptance(users[0], isAcceptMessage));
        users := users[0 := SetAcceptance(users[0], isAcceptMessage)];
        r := Some(users[0]);
      }
    }

    /**
     * `addMessage(userId, message)`: the update validators check the pushed
     * message's content (trimmed, 10 to 300 characters) before anything is
     * written.
     */
    method AddMessage(id: UserId, messageId: MessageId, content: string, createdAt: int)
      returns (r: Result<Option<User>, DbError>)
      requires Valid()
      modifies this
      ensures Valid() && nextId == old(nextId)
      ensures StoredContent(content).Err? ==> r == Err(ValidationError("messages.content")) && users == old(users)
      ensures StoredContent(content).Ok? ==>
        var m := Message(messageId, StoredContent(content).value, createdAt);
        match FindFirst(old(users), ById(id))
        case None => r == Ok(None) && users == old(users)
        case Some(i) => users == old(users)[i := PushMessage(old(users)[i], m)] && r == Ok(Some(users[i]))
    {
      var stored := StoredContent(content);
      if stored.Err? {
        return Err(ValidationError("messages.content"));
      }
      var m := Message(messageId, stored.value, createdAt);
      var found := FindFirst(users, ById(id));
      match found
      case None => r := Ok(None);
      case Some(i) =>
        ReplaceKeepsConsistent(users, nextId, i, PushMessage(users[i], m));
        users := users[i := PushMessage(users[i], m)];
        r := Ok(Some(users[i]));
    }

    /** `removeMessage(userId, messageId)` */
    method RemoveMessage(id: UserId, messageId: MessageId) returns (r: Option<User>)
      requires Valid()
      modifies this
      ensures Valid() && nextId == old(nextId)
      ensures match FindFirst(old(users), ById(id))
        case None => r.None? && users == old(users)
        case Some(i) => users == old(users)[i := PullMessage(old(users)[i], messageId)] && r == Some(users[i])
    {
      var found := FindFirst(users, ById(id));
      match found
      case None => r := None;
      case Some(i) =>
        ReplaceKeepsConsistent(users, nextId, i, PullMessage(users[i], messageId));
        users := users[i := PullMessage(users[i], messageId)];
        r := Some(users[i]);
    }

    /**
     * `create` / `save` of a new record: the setters run, then the
     * validators (the username's length and pattern, the e-mail being
     * present and matching its pattern), then the unique indexes on username and e-mail; on success
     * the record gets the next `_id` and is appended.
     */
    method Create(d: NewUser) returns (r: Result<User, DbError>)
      requires Valid()
      modifies this
      ensures Valid()
      ensures r == CreateOutcome(old(users), old(nextId), d)
      ensures r.Ok? ==> users == old(users) + [r.value] && nextId == old(nextId) + 1
      ensures r.Err? ==> users == old(users) && nextId == old(nextId)
    {
      r := CreateOutcome(users, nextId, d);
      if r.Ok? {
        CreateKeepsConsistent(users, nextId, d);
        users := users + [r.value];
        nextId := nextId + 1;
      }
    }
  }

  /** What creating `d` in `users` yields: the new record, or the first error raised. */
  function CreateOutcome(users: seq<User>, nextId: nat, d: NewUser): (r: Result<User, DbError>)
    ensures r.Ok? <==> (Forms.UsernameRule(SetUsername(d.username)) && SetEmail(d.email) != ""
      && EmailPatternMatches(SetEmail(d.email))
      && FindOne(users, ByUsername(d.username)).None? && FindOne(users, ByEmail(d.email)).None?)
    ensures r.Ok? ==> r.value == WithDefaults(nextId, d)
    ensures !Forms.UsernameRule(SetUsername(d.username)) ==> r == Err(ValidationError("username"))
    ensures Forms.UsernameRule(SetUsername(d.username)) && !EmailPatternMatches(SetEmail(d.email)) ==>
      r == Err(ValidationError("email"))
    ensures r.Err? && r.error.DuplicateKey? ==>
      (r.error.index == "username_1" <==> FindOne(users, ByUsername(d.username)).Some?)
    ensures (Forms.UsernameRule(SetUsername(d.username)) && SetEmail(d.email) != ""
      && EmailPatternMatches(SetEmail(d.email)) && FindOne(users, ByUsername(d.username)).Some?) ==>
      r == Err(DuplicateKey("username_1"))
    ensures (Forms.UsernameRule(SetUsername(d.username)) && SetEmail(d.email) != ""
      && EmailPatternMatches(SetEmail(d.email)) && FindOne(users, ByUsername(d.username)).None?
      && FindOne(users, ByEmail(d.email)).Some?) ==>
      r == Err(DuplicateKey("email_1"))
  {
    if !Forms.UsernameRule(SetUsername(d.username)) then Err(ValidationError("username"))
    else if SetEmail(d.email) == "" || !EmailPatternMatches(SetEmail(d.email)) then Err(ValidationError("email"))
    else if FindOne(users, ByUsername(d.username)).Some? then Err(DuplicateKey("username_1"))
    else if FindOne(users, ByEmail(d.email)).Some? then Err(DuplicateKey("email_1"))
    else Ok(WithDefaults(nextId, d))
  }

  /**
   * An address with no `@` is refused on the `email` path once the username
   * passes, whatever the collection holds: `"abc"` is not stored.
   */
  lemma CreateRejectsAddressWithoutAt(users: seq<User>, nextId: nat, d: NewUser)
    requires Forms.UsernameRule(SetUsername(d.username))
    requires forall k :: 0 <= k < |d.email| ==> d.email[k] != '@'
    ensures CreateOutcome(users, nextId, d) == Err(ValidationError("email"))
  {
    var t := Trim(d.email);
    TrimIsWindow(d.email);
    var a := |d.email| - |TrimStart(d.email)|;
    forall k | 0 <= k < |t| ensures t[k] != '@' {
      assert t[k] == d.email[a + k];
    }
    NoAtFailsPattern(SetEmail(d.email));
  }

  /** A record that passes the unique indexes keeps them intact. */
  lemma CreateKeepsConsistent(users: seq<User>, nextId: nat, d: NewUser)
    requires Consistent(users, nextId) && CreateOutcome(users, nextId, d).Ok?
    ensures Consistent(users + [CreateOutcome(users, nextId, d).value], nextId + 1)
  {
    var u := CreateOutcome(users, nextId, d).value;
    NotFoundIsDistinct(users, d);
    AppendKeepsConsistent(users, nextId, u);
  }

  /** Neither `findOne` finding a record means no record has the set username or e-mail. */
  lemma NotFoundIsDistinct(users: seq<User>, d: NewUser)
    requires FindOne(users, ByUsername(d.username)).None? && FindOne(users, ByEmail(d.email)).None?
    ensures forall j :: 0 <= j < |users| ==>
      users[j].username != SetUsername(d.username) && users[j].email != SetEmail(d.email)
  {
    forall j | 0 <= j < |users|
      ensures users[j].username != SetUsername(d.username) && users[j].email != SetEmail(d.email)
    {
      assert !Matches(users[j], Cast(ByUsername(d.username)));
      assert !Matches(users[j], Cast(ByEmail(d.email)));
    }
  }

  /** A record with the next `_id` and a new username and e-mail keeps the indexes intact. */
  lemma AppendKeepsConsistent(users: seq<User>, nextId: nat, u: User)
    requires Consistent(users, nextId) && u.id == nextId
    requires forall j :: 0 <= j < |users| ==> users[j].username != u.username && users[j].email != u.email
    ensures Consistent(users + [u], nextId + 1)
  {
    var all := users + [u];
    forall i, j | 0 <= i < j < |all|
      ensures all[i].id != all[j].id && all[i].username != all[j].username && all[i].email != all[j].email
    {
      assert all[i] == users[i];
      if j == |users| {
        assert all[j] == u;
      } else {
        assert all[j] == users[j];
      }
    }
  }
}
