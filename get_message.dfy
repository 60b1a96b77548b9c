/**
 * `GET /api/get-message`: the signed-in user's messages, newest first. The
 * handler sorts the array in place with a comparator on `createdAt`; the
 * sort is stable, so messages with the same time keep their stored order.
 */
module GetMessage {
  import opened Wrappers
  import opened Users
  import opened Messages
  import opened Sessions

  // ---------------------------------------------------------------- the order

  /** Non-increasing `createdAt`. */
  predicate NewestFirstOrder(ms: seq<Message>) {
    forall i, j :: 0 <= i < j < |ms| ==> ms[i].createdAt >= ms[j].createdAt
  }

  /** `m` placed into `ms` after every message at least as new as it. */
  function Insert(ms: seq<Message>, m: Message): (r: seq<Message>)
    ensures |r| == |ms| + 1
    decreases |ms|
  {
    if ms == [] || ms[|ms| - 1].createdAt >= m.createdAt then ms + [m]
    else Insert(ms[..|ms| - 1], m) + [ms[|ms| - 1]]
  }

  /** The messages as the stable newest-first sort leaves them. */
  function NewestFirst(ms: seq<Message>): (r: seq<Message>)
    ensures |r| == |ms|
    decreases |ms|
  {
    if ms == [] then [] else Insert(NewestFirst(ms[..|ms| - 1]), ms[|ms| - 1])
  }

  /** The messages with time `t`, in order. */
  function At(ms: seq<Message>, t: int): seq<Message>
    decreases |ms|
  {
    if ms == [] then []
    else At(ms[..|ms| - 1], t) + (if ms[|ms| - 1].createdAt == t then [ms[|ms| - 1]] else [])
  }

  lemma AtSnoc(ms: seq<Message>, m: Message, t: int)
    ensures At(ms + [m], t) == At(ms, t) + (if m.createdAt == t then [m] else [])
  {
    assert (ms + [m])[..|ms|] == ms;
  }

  lemma {:induction false} InsertIsPermutation(ms: seq<Message>, m: Message)
    ensures multiset(Insert(ms, m)) == multiset(ms) + multiset{m}
    decreases |ms|
  {
    if ms != [] && ms[|ms| - 1].createdAt < m.createdAt {
      var n := |ms| - 1;
      InsertIsPermutation(ms[..n], m);
      assert ms == ms[..n] + [ms[n]];
    }
  }

  lemma {:induction false} InsertKeepsOrder(ms: seq<Message>, m: Message)
    requires NewestFirstOrder(ms)
    ensures NewestFirstOrder(Insert(ms, m))
    ensures Insert(ms, m) != [] && forall x :: x in Insert(ms, m) ==> x in ms || x == m
    decreases |ms|
  {
    if ms != [] && ms[|ms| - 1].createdAt < m.createdAt {
      var n := |ms| - 1;
      var init := ms[..n];
      InsertKeepsOrder(init, m);
      var head := Insert(init, m);
      forall x | x in head ensures x.createdAt >= ms[n].createdAt {
        if x != m {
          var k :| 0 <= k < n && init[k] == x;
        }
      }
    }
  }

  /** Messages with one time keep their relative order when another message is placed. */
  lemma {:induction false} InsertIsStable(ms: seq<Message>, m: Message, t: int)
    ensures At(Insert(ms, m), t) == At(ms, t) + (if m.createdAt == t then [m] else [])
    decreases |ms|
  {
    var n := |ms| - 1;
    if ms == [] || ms[n].createdAt >= m.createdAt {
      AtSnoc(ms, m, t);
    } else {
      InsertIsStable(ms[..n], m, t);
      AtSnoc(Insert(ms[..n], m), ms[n], t);
      assert ms == ms[..n] + [ms[n]];
      AtSnoc(ms[..n], ms[n], t);
    }
  }

  /** The sorted list holds the same messages, each as often. */
  lemma {:induction false} NewestFirstIsPermutation(ms: seq<Message>)
    ensures multiset(NewestFirst(ms)) == multiset(ms)
    decreases |ms|
  {
    if ms != [] {
      var n := |ms| - 1;
      NewestFirstIsPermutation(ms[..n]);
      InsertIsPermutation(NewestFirst(ms[..n]), ms[n]);
      assert ms == ms[..n] + [ms[n]];
    }
  }

  /** The sorted list is newest first. */
  lemma {:induction false} NewestFirstIsOrdered(ms: seq<Message>)
    ensures NewestFirstOrder(NewestFirst(ms))
    decreases |ms|
  {
    if ms != [] {
      var n := |ms| - 1;
      NewestFirstIsOrdered(ms[..n]);
      InsertKeepsOrder(NewestFirst(ms[..n]), ms[n]);
    }
  }

  /** Messages with the same time come out in the order they were stored. */
  lemma {:induction false} NewestFirstIsStable(ms: seq<Message>, t: int)
    ensures At(NewestFirst(ms), t) == At(ms, t)
    decreases |ms|
  {
    if ms != [] {
      var n := |ms| - 1;
      NewestFirstIsStable(ms[..n], t);
      InsertIsStable(NewestFirst(ms[..n]), ms[n], t);
    }
  }

  /** A list that is already newest first is left as it is. */
  lemma {:induction false} NewestFirstOfOrdered(ms: seq<Message>)
    requires NewestFirstOrder(ms)
    ensures NewestFirst(ms) == ms
    decreases |ms|
  {
    if ms != [] {
      var n := |ms| - 1;
      NewestFirstOfOrdered(ms[..n]);
      if n > 0 {
        assert ms[n - 1].createdAt >= ms[n].createdAt;
      }
      assert ms == ms[..n] + [ms[n]];
    }
  }

  // ---------------------------------------------------------------- the sort in place

  /** `m` goes in after the last message at least as new as it, which is what `Insert` does. */
  lemma {:induction false} InsertAtPoint(s: seq<Message>, m: Message, j: int)
    requires 0 <= j <= |s| && (j == 0 || s[j - 1].createdAt >= m.createdAt)
    requires forall k :: j <= k < |s| ==> s[k].createdAt < m.createdAt
    ensures Insert(s, m) == s[..j] + [m] + s[j..]
    decreases |s|
  {
    if j < |s| {
      var n := |s| - 1;
      InsertAtPoint(s[..n], m, j);
      assert s[..n][..j] == s[..j];
      assert s[j..] == s[..n][j..] + [s[n]];
    }
  }

  /**
   * Moves the messages before `i` that are older than `m` one place to the
   * right, from the back, and returns the place left free.
   */
  method MakeRoom(a: array<Message>, i: int, m: Message) returns (j: int)
    requires 0 <= i < a.Length
    modifies a
    ensures 0 <= j <= i && (j == 0 || a[j - 1].createdAt >= m.createdAt)
    ensures forall k :: 0 <= k < j ==> a[k] == old(a[k])
    ensures forall k :: j < k <= i ==> a[k] == old(a[k - 1])
    ensures forall k :: i < k < a.Length ==> a[k] == old(a[k])
    ensures forall k :: j <= k < i ==> old(a[k]).createdAt < m.createdAt
  {
    j := i;
    while j > 0 && a[j - 1].createdAt < m.createdAt
      invariant 0 <= j <= i
      invariant forall k :: 0 <= k < j ==> a[k] == old(a[k])
      invariant forall k :: j < k <= i ==> a[k] == old(a[k - 1])
      invariant forall k :: i < k < a.Length ==> a[k] == old(a[k])
      invariant forall k :: j <= k < i ==> old(a[k]).createdAt < m.createdAt
    {
      a[j] := a[j - 1];
      j := j - 1;
    }
  }

  /** One step of insertion sort: the message at `i` joins the sorted prefix before it. */
  method InsertAt(a: array<Message>, i: int)
    requires 0 <= i < a.Length
    modifies a
    ensures a[..i + 1] == Insert(old(a[..i]), old(a[i]))
    ensures a[i + 1..] == old(a[i + 1..])
  {
    ghost var sorted := a[..i];
    ghost var rest := a[i + 1..];
    var m := a[i];
    var j := MakeRoom(a, i, m);
    a[j] := m;
    InsertAtPoint(sorted, m, j);
    ghost var placed := sorted[..j] + [m] + sorted[j..];
    forall k | 0 <= k <= i ensures a[k] == placed[k] {
      if k < j {
        assert placed[k] == sorted[k];
      } else if k > j {
        assert placed[k] == sorted[k - 1];
      }
    }
    assert a[..i + 1] == placed;
    assert forall k :: 0 <= k < |rest| ==> a[i + 1 + k] == rest[k];
    assert a[i + 1..] == rest;
  }

  /** `messages.sort((a, b) => b.createdAt - a.createdAt)` */
  method SortNewestFirst(a: array<Message>)
    modifies a
    ensures a[..] == NewestFirst(old(a[..]))
  {
    var i := 0;
    while i < a.Length
      invariant 0 <= i <= a.Length
      invariant a[..i] == NewestFirst(old(a[..])[..i])
      invariant a[i..] == old(a[..])[i..]
    {
      ghost var before := a[..];
      InsertAt(a, i);
      assert old(a[..])[..i + 1][..i] == old(a[..])[..i];
      assert before[i] == old(a[..])[i];
      i := i + 1;
    }
    assert a[..] == a[..a.Length];
    assert old(a[..]) == old(a[..])[..a.Length];
  }

  // ---------------------------------------------------------------- the handler

  datatype Reply = Listed(messages: seq<Message>) | Refused(status: nat, message: string)

  const NotAuthenticated: Reply := Refused(401, "Not authenticated")
  const NoUserId: Reply := Refused(400, "User ID not found in session")
  const UserNotFound: Reply := Refused(404, "User not found")

  /** The handler over the collection `users`, which it only reads. */
  method GetMessages(users: seq<User>, session: Session) returns (reply: Reply)
    ensures session.Anonymous? ==> reply == NotAuthenticated
    ensures session.SignedIn? && session.id.None? ==> reply == NoUserId
    ensures session.SignedIn? && session.id.Some? ==>
      match Lookup(users, ById(session.id.value))
      case None => reply == UserNotFound
      case Some(u) => reply == Listed(NewestFirst(u.messages))
  {
    if session.Anonymous? {
      return NotAuthenticated;
    }
    if session.id.None? {
      return NoUserId;
    }
    var found := Lookup(users, ById(session.id.value));
    if found.None? {
      return UserNotFound;
    }
    var ms := found.value.messages;
    var a := new Message[|ms|](k requires 0 <= k < |ms| => ms[k]);
    assert a[..] == ms;
    SortNewestFirst(a);
    reply := Listed(a[..]);
  }
}
