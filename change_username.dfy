/**
 * The `PATCH /username` handler: validate the request, re-verify the password,
 * check that a new username is free, write it with one keyed `$set`, then publish
 * a change notification whose outcome is ignored.
 */
module ProfileUpdate {
  import opened Wrappers
  import opened UsernameValidation
  import opened UserCollection

  /** The errors this handler can return. */
  datatype Error =
    | FailedValidation(error: set<Violation>)
    | InvalidCredentials
    | UsernameTaken
    | DatabaseError(operation: string, with: string)

  /** `ClientboundNotification::UserUpdate`: the user's id and the request as received. */
  datatype Event = UserUpdate(id: UserId, data: Data)

  /**
   * How the store answers `update_one`: acknowledged, or an error. An error may
   * still come after the server applied the write (a lost reply, a write-concern
   * timeout), so it says whether the `$set` took effect.
   */
  datatype WriteOutcome = Acknowledged | Failed(applied: bool)

  /** One call from the handler into a collaborator, in the order made. */
  datatype Call =
    | VerifyPassword(password: string)
    | IsUsernameTaken(username: string)
    | UpdateOne(filterId: UserId, changes: Document)
    | Publish(channel: UserId, event: Event)

  /**
   * What the collaborators answer, for the session and the moment of this request.
   * `verifyPassword` is true when `auth.verify_password` succeeds; `isUsernameTaken`
   * is `User::is_username_taken`, left uninterpreted; `updateOne` is how the
   * store answers the write; `publish` is true when the notification went out.
   */
  datatype Services = Services(
    verifyPassword: string -> bool,
    isUsernameTaken: string -> Result<bool, Error>,
    updateOne: (UserId, Document) -> WriteOutcome,
    publish: (UserId, Event) -> bool)

  /**
   * The `$set` document the handler builds: the new username when one is given,
   * and nothing else. The requested username can be read back from it.
   */
  function SetDocument(data: Data): (changes: Document)
    ensures changes.Keys <= {UsernameField}
    ensures (if UsernameField in changes then Some(changes[UsernameField]) else None) == data.username
  {
    if data.username.Some? then map[UsernameField := data.username.value] else map[]
  }

  /** The requested username is acceptable to the uniqueness check, or none was given. */
  predicate UsernameAvailable(data: Data, svc: Services) {
    data.username.Some? ==> svc.isUsernameTaken(data.username.value) == Ok(false)
  }

  /** The request has passed every check before the write. */
  predicate Admitted(data: Data, svc: Services) {
    Violations(data) == {} && svc.verifyPassword(data.password) && UsernameAvailable(data, svc)
  }

  /** The calls made before the write when the request is admitted. */
  function ChecksMade(data: Data): seq<Call> {
    [VerifyPassword(data.password)]
      + (if data.username.Some? then [IsUsernameTaken(data.username.value)] else [])
  }

  /**
   * The uniqueness oracle never calls a username free while another user holds
   * it. Whether it also counts the requesting user is left open.
   */
  ghost predicate TakenCheckSound(svc: Services, users: Collection, id: UserId) {
    forall u :: svc.isUsernameTaken(u) == Ok(false) ==> HeldByNoOther(users, id, u)
  }

  /** The user store, with a record of every collaborator call made against it. */
  class UserStore {
    var users: Collection
    ghost var log: seq<Call>

    constructor (users: Collection)
      ensures this.users == users && log == []
    {
      this.users := users;
      log := [];
    }

    /**
     * Handle one request from the user `id` over an authenticated session.
     * Every failure before the write leaves the collection unchanged; the write is
     * the commit point; the notification cannot change the result.
     */
    method ChangeUsername(id: UserId, data: Data, svc: Services) returns (r: Result<(), Error>)
      modifies this
      // Validation fails: nothing else is called.
      ensures Violations(data) != {} ==>
        r == Err(FailedValidation(Violations(data))) && users == old(users) && log == old(log)
      // Wrong password: only the credential check ran.
      ensures Violations(data) == {} && !svc.verifyPassword(data.password) ==>
        && r == Err(InvalidCredentials)
        && users == old(users)
        && log == old(log) + [VerifyPassword(data.password)]
      // The uniqueness check fails or reports the name taken: no write, no publish.
      ensures Violations(data) == {} && svc.verifyPassword(data.password) && data.username.Some? ==>
        var q := svc.isUsernameTaken(data.username.value);
        q != Ok(false) ==>
          && r == (if q.Err? then Err(q.error) else Err(UsernameTaken))
          && users == old(users)
          && log == old(log) + [VerifyPassword(data.password), IsUsernameTaken(data.username.value)]
      // The write is issued once with the changed fields; on failure nothing is published.
      // The collection is then as before, or has the `$set` applied if the store did so.
      ensures Admitted(data, svc) && svc.updateOne(id, SetDocument(data)).Failed? ==>
        && r == Err(DatabaseError("update_one", "user"))
        && users == (if svc.updateOne(id, SetDocument(data)).applied
                     then ApplySet(old(users), id, SetDocument(data)) else old(users))
        && log == old(log) + ChecksMade(data) + [UpdateOne(id, SetDocument(data))]
      // The write succeeds: the result is Ok, and one notification for `id` follows.
      ensures Admitted(data, svc) && svc.updateOne(id, SetDocument(data)) == Acknowledged ==>
        && r == Ok(())
        && users == ApplySet(old(users), id, SetDocument(data))
        && log == old(log) + ChecksMade(data)
                   + [UpdateOne(id, SetDocument(data)), Publish(id, UserUpdate(id, data))]
      // Success exactly when every check passed and the write was acknowledged.
      ensures r.Ok? <==> Admitted(data, svc) && svc.updateOne(id, SetDocument(data)) == Acknowledged
      // Whatever happens, no user other than `id` is touched and no document appears or vanishes.
      ensures users.Keys == old(users).Keys
      ensures forall k | k in old(users) && k != id :: users[k] == old(users)[k]
      // Without a new username the write changes nothing, not even the target's document.
      ensures data.username.None? ==> users == old(users)
      // With one, a successful request leaves it as the target's username.
      // Before the write is issued, a failure leaves the collection as it was.
      ensures users != old(users) ==> Admitted(data, svc)
      ensures r.Ok? && data.username.Some? && id in old(users) ==> UsernameOf(users, id) == data.username
      // A sound uniqueness check keeps usernames unique.
      ensures UniqueUsernames(old(users)) && TakenCheckSound(svc, old(users), id) ==>
        UniqueUsernames(users)
    {
      var validated := Validate(data);
      if validated.Err? {
        return Err(FailedValidation(validated.error));
      }

      log := log + [VerifyPassword(data.password)];
      if !svc.verifyPassword(data.password) {
        return Err(InvalidCredentials);
      }

      var changes: Document := map[];
      if data.username.Some? {
        var username := data.username.value;
        log := log + [IsUsernameTaken(username)];
        var taken := svc.isUsernameTaken(username);
        if taken.Err? {
          return Err(taken.error);
        }
        if taken.value {
          return Err(UsernameTaken);
        }
        changes := changes[UsernameField := username];
      }
      assert changes == SetDocument(data);

      log := log + [UpdateOne(id, changes)];
      var outcome := svc.updateOne(id, changes);
      ghost var before := users;
      if outcome == Acknowledged || outcome.applied {
        users := ApplySet(users, id, changes);
        if data.username.Some? {
          if id in before {
            SetUsernameEffect(before, id, data.username.value);
          }
          if UniqueUsernames(before) && TakenCheckSound(svc, before, id) {
            SetUsernamePreservesUnique(before, id, data.username.value);
          }
        } else {
          EmptySetIsNoOp(before, id);
        }
      }
      if outcome.Failed? {
        return Err(DatabaseError("update_one", "user"));
      }

      var event := UserUpdate(id, data);
      log := log + [Publish(id, event)];
      var delivered := svc.publish(id, event);
      return Ok(());
    }
  }
}
