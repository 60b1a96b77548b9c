/**
 * `/api/accept-message`: `POST` sets whether the signed-in user accepts
 * messages, `GET` reads it back.
 */
module AcceptMessage {
  import opened Wrappers
  import opened Users
  import opened Sessions

  datatype Reply = Reply(status: nat, success: bool, message: Option<string>, isAcceptingMessages: Option<bool>)

  const NotAuthenticated: Reply := Reply(401, false, Some("Not authenticated"), None)
  const UpdateFailed: Reply := Reply(401, false, Some("failed to update user to accept  message "), None)
  const UserNotFound: Reply := Reply(404, false, Some("User not found"), None)

  /** The 200 reply of `POST`, carrying the stored flag. */
  function Updated(flag: bool): (r: Reply)
    ensures r.status == 200 && r.success && r.isAcceptingMessages == Some(flag)
  {
    Reply(200, true, Some("message acceptance status updated successfully"), Some(flag))
  }

  /** Two collections that agree on every `_id`, position by position, find the same record by `_id`. */
  lemma SameIdsSameFind(a: seq<User>, b: seq<User>, k: UserId)
    requires |a| == |b| && forall j :: 0 <= j < |a| ==> a[j].id == b[j].id
    ensures FindFirst(a, ById(k)) == FindFirst(b, ById(k))
  {
    var fa, fb := FindFirst(a, ById(k)), FindFirst(b, ById(k));
    if fa.Some? && fb.Some? {
      if fa.value < fb.value {
        assert Matches(b[fa.value], ById(k));
      } else if fb.value < fa.value {
        assert Matches(a[fb.value], ById(k));
      }
    } else if fa.Some? {
      assert Matches(b[fa.value], ById(k));
    } else if fb.Some? {
      assert Matches(a[fb.value], ById(k));
    }
  }

  /**
   * The record `findByIdAndUpdate(id, …)` writes. It runs the filter
   * `{ _id: id }`: a present `_id` selects the record with that `_id`; with
   * the `_id` missing the filter is `{ _id: undefined }`, which Mongoose
   * treats as the empty filter, so it selects the first record in natural
   * order when there is one.
   */
  function AcceptanceTarget(users: seq<User>, id: Option<UserId>): (r: Option<nat>)
    ensures r.Some? ==> r.value < |users|
    ensures id.Some? ==> (r.Some? <==> exists j :: 0 <= j < |users| && users[j].id == id.value)
    ensures id.Some? && r.Some? ==> users[r.value].id == id.value
    ensures id.None? ==> (r.Some? <==> users != []) && (r.Some? ==> r.value == 0)
  {
    match id
    case Some(k) =>
      var f := FindFirst(users, ById(k));
      if f.None? then
        assert forall j :: 0 <= j < |users| ==> !Matches(users[j], ById(k));
        f
      else f
    case None => if users == [] then None else Some(0)
  }

  /** The collection after `findByIdAndUpdate(id, { isAcceptMessage: flag })`. */
  function AcceptanceSet(users: seq<User>, id: Option<UserId>, flag: bool): (r: seq<User>)
    ensures |r| == |users|
    ensures forall j :: 0 <= j < |users| ==> r[j].(isAcceptMessage := users[j].isAcceptMessage) == users[j]
    ensures AcceptanceTarget(users, id).None? ==> r == users
    ensures AcceptanceTarget(users, id).Some? ==>
      r[AcceptanceTarget(users, id).value].isAcceptMessage == flag
    ensures AcceptanceTarget(users, id).Some? ==>
      forall j :: 0 <= j < |users| && j != AcceptanceTarget(users, id).value ==> r[j] == users[j]
  {
    match AcceptanceTarget(users, id)
    case None => users
    case Some(i) => users[i := SetAcceptance(users[i], flag)]
  }

  /** Setting the same flag twice leaves the collection as setting it once. */
  lemma AcceptanceSetIdempotent(users: seq<User>, id: Option<UserId>, flag: bool)
    ensures AcceptanceSet(AcceptanceSet(users, id, flag), id, flag) == AcceptanceSet(users, id, flag)
  {
    var once := AcceptanceSet(users, id, flag);
    if id.Some? {
      SameIdsSameFind(once, users, id.value);
    }
    match AcceptanceTarget(users, id)
    case None =>
    case Some(i) =>
      SetAcceptanceIdempotent(users[i], flag);
      assert once[i] == SetAcceptance(users[i], flag);
  }

  /**
   * A signed-in session without an `_id` still writes: the first record
   * takes the flag and `POST` answers 200, while `GET`, through `findById`,
   * finds no user for the same session.
   */
  lemma MissingIdSetsFirstRecord(users: seq<User>, flag: bool)
    requires users != []
    ensures AcceptanceSet(users, None, flag) == users[0 := SetAcceptance(users[0], flag)]
    ensures GetAcceptMessages(users, SignedIn(None)) == UserNotFound
  {
  }

  /** `POST`: the body's `acceptMessages` becomes the signed-in user's flag. */
  method SetAcceptMessages(store: UserStore, session: Session, acceptMessages: bool) returns (reply: Reply)
    requires store.Valid()
    modifies store
    ensures store.Valid() && store.nextId == old(store.nextId)
    ensures session.Anonymous? ==> reply == NotAuthenticated && store.users == old(store.users)
    ensures session.SignedIn? ==>
      store.users == AcceptanceSet(old(store.users), session.id, acceptMessages)
      && reply == (if AcceptanceTarget(old(store.users), session.id).Some? then Updated(acceptMessages) else UpdateFailed)
  {
    if session.Anonymous? {
      return NotAuthenticated;
    }
    var updated: Option<User>;
    match session.id {
      case None =>
        updated := store.UpdateFirstAcceptance(acceptMessages);
      case Some(id) =>
        updated := store.UpdateMessageAcceptance(id, acceptMessages);
    }
    match updated {
      case None => reply := UpdateFailed;
      case Some(u) => reply := Updated(u.isAcceptMessage);
    }
  }

  /** `GET`: the signed-in user's flag, read without changing anything. */
  function GetAcceptMessages(users: seq<User>, session: Session): (r: Reply)
    ensures session.Anonymous? ==> r == NotAuthenticated
    ensures session.SignedIn? ==> (r.status == 200 <==> SessionUser(users, session).Some?)
    ensures session.SignedIn? && r.status != 200 ==> r == UserNotFound
    ensures r.status == 200 ==>
      r.success && r.isAcceptingMessages == Some(SessionUser(users, session).value.isAcceptMessage)
  {
    match session
    case Anonymous => NotAuthenticated
    case SignedIn(_) =>
      match SessionUser(users, session)
      case None => UserNotFound
      case Some(u) => Reply(200, true, None, Some(u.isAcceptMessage))
  }

  /** What `POST` stored is what `GET` then reads, for a user that exists. */
  lemma GetAfterSet(users: seq<User>, session: Session, flag: bool)
    requires session.SignedIn? && SessionUser(users, session).Some?
    ensures var after := AcceptanceSet(users, session.id, flag);
      GetAcceptMessages(after, session).status == 200
      && GetAcceptMessages(after, session).isAcceptingMessages == Some(flag)
  {
    var after := AcceptanceSet(users, session.id, flag);
    SameIdsSameFind(after, users, session.id.value);
  }
}
