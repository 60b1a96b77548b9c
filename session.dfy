/**
 * What `getServerSession` yields: no session (or one without a user), or a
 * signed-in user whose session may or may not carry the `_id`.
 */
module Sessions {
  import opened Wrappers
  import opened Users

  datatype Session = Anonymous | SignedIn(id: Option<UserId>)

  /** `findById(session.user._id)`: a missing `_id` finds nothing. */
  function SessionUser(users: seq<User>, s: Session): (r: Option<User>)
    requires s.SignedIn?
    ensures r.Some? <==> s.id.Some? && FindFirst(users, ById(s.id.value)).Some?
    ensures r.Some? ==> r.value.id == s.id.value && r.value in users
  {
    match s.id
    case None => None
    case Some(id) => Lookup(users, ById(id))
  }
}
