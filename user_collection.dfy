/**
 * The `users` collection of the document store, as far as the handler touches it:
 * documents keyed by `_id`, and the single-document `$set` update.
 */
module UserCollection {
  import opened Wrappers

  type UserId = string

  /** A user document: field name to value. Only string fields are written here. */
  type Document = map<string, string>

  /** The collection: `_id` to document. */
  type Collection = map<UserId, Document>

  const UsernameField: string := "username"

  /** The `username` field of the document with the given `_id`, if both exist. */
  function UsernameOf(users: Collection, id: UserId): Option<string> {
    if id in users && UsernameField in users[id] then Some(users[id][UsernameField]) else None
  }

  /**
   * `update_one({ _id: id }, { $set: changes })`: the one document whose `_id` matches
   * gets every field of `changes` written over it and keeps all its other fields;
   * when no document matches, nothing changes (the driver still reports success).
   */
  function ApplySet(users: Collection, id: UserId, changes: Document): (r: Collection)
    ensures r.Keys == users.Keys
    ensures forall k | k in users && k != id :: r[k] == users[k]
    ensures id in users ==> r[id].Keys == users[id].Keys + changes.Keys
    ensures id in users ==> forall f | f in changes :: r[id][f] == changes[f]
    ensures id in users ==> forall f | f in users[id] && f !in changes :: r[id][f] == users[id][f]
  {
    if id in users then users[id := users[id] + changes] else users
  }

  /** An empty `$set` leaves the whole collection as it was. */
  lemma EmptySetIsNoOp(users: Collection, id: UserId)
    ensures ApplySet(users, id, map[]) == users
  {
    if id in users {
      assert users[id] + map[] == users[id];
    }
  }

  /** Setting the username changes that user's username and no other user's. */
  lemma SetUsernameEffect(users: Collection, id: UserId, u: string)
    requires id in users
    ensures UsernameOf(ApplySet(users, id, map[UsernameField := u]), id) == Some(u)
    ensures forall k | k != id :: UsernameOf(ApplySet(users, id, map[UsernameField := u]), k) == UsernameOf(users, k)
  {
  }

  /** No two users hold the same username. */
  ghost predicate UniqueUsernames(users: Collection) {
    forall a, b | a in users && b in users && a != b && UsernameOf(users, a).Some? ::
      UsernameOf(users, a) != UsernameOf(users, b)
  }

  /** No user other than `id` holds `u`. */
  ghost predicate HeldByNoOther(users: Collection, id: UserId, u: string) {
    forall k | k in users && k != id :: UsernameOf(users, k) != Some(u)
  }

  /**
   * Giving `id` a username nobody else holds keeps usernames unique: the guarantee
   * the uniqueness check exists for, in a single sequential request.
   */
  lemma SetUsernamePreservesUnique(users: Collection, id: UserId, u: string)
    requires UniqueUsernames(users)
    requires HeldByNoOther(users, id, u)
    ensures UniqueUsernames(ApplySet(users, id, map[UsernameField := u]))
  {
  }
}
