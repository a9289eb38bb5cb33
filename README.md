# Username change handler

A model of the `PATCH /username` route of a chat backend
(`src/routes/users/change_username.rs`). An authenticated user sends an optional new
username and their current password. The handler runs five steps in order:
1. It validates the request body.
2. It re-verifies the password.
3. If a username is given, it asks whether that username is taken.
4. It writes the changed fields to the user's document with one keyed `$set`. This is the commit point.
5. It publishes a `UserUpdate` notification and ignores the outcome.

Each failing step returns its own error before the write.

Files:
- `wrappers.dfy`: `Option` and `Result`.
- `validation.dfy` (module `UsernameValidation`): the `Data` request body and its validator rules. It covers the `RE_USERNAME` pattern `^[a-zA-Z0-9_.]+$`, the username length range [2, 32] and the password length range [8, 72]. Lengths count characters.
- `user_collection.dfy` (module `UserCollection`): the `users` collection as a map from `_id` to document, the `update_one` `$set` merge, and the "usernames are unique" invariant.
- `change_username.dfy` (module `ProfileUpdate`): the error type, the notification event, the collaborators, and the class `UserStore`. The class holds the collection. Its method `ChangeUsername` is the handler. A ghost `log` records every collaborator call in order, with its arguments.

The collaborators are fields of a `Services` value, given as inputs:
- `verifyPassword` stands for `auth.verify_password` on the request's session. Any failure of that call counts as wrong credentials.
- `isUsernameTaken` stands for `User::is_username_taken`. It is uninterpreted, and an error it returns is passed to the caller unchanged, as `?` does.
- `updateOne` is how the store answers the write: acknowledged, or failed, together with whether the failed write was still applied.
- `publish` is whether the notification was delivered. The handler reads it and discards it.

The event published is `UserUpdate(id, data)`: the user's id plus the request body exactly as received, password included (lines 53-56).

What the model does not assume:
- `is_username_taken` is not shown. So the model assumes neither that it excludes the requesting user nor that replaying an applied request succeeds. Uniqueness is proved under the weaker `TakenCheckSound`: the query never calls a name free while another user holds it.
- The outcome of an empty `$set` write is left to `updateOne`, like every other write. Whatever that outcome, an empty `$set` leaves the collection unchanged.
- `update_one` can report an error after the server has already applied the `$set`, for example after a lost reply or a write-concern timeout. So a failed write carries whether it took effect (`WriteOutcome.Failed(applied)`), and the collection follows that.
- A filter that matches no document (the user was deleted meanwhile) is not an error for `update_one`. The handler then still returns `Ok` and publishes.

## Model

| member | source | states |
|---|---|---|
| `UsernameValidation.MatchesUsernamePatternIff` | src/routes/users/change_username.rs:15 | the anchored one-or-more matcher for `[a-zA-Z0-9_.]+` accepts exactly the non-empty strings whose every character is in the class (both directions) |
| `UsernameValidation.EmptyNeverMatches` | src/routes/users/change_username.rs:15 | because of the `+`, the empty string does not match the username pattern |
| `UsernameValidation.ViolationsMeaning` | src/routes/users/change_username.rs:15-23 | the username length rule is reported iff a username is present with fewer than 2 or more than 32 characters; the pattern rule iff a present username is empty or has a character outside the class; the password rule iff the password is outside [8, 72] |
| `UsernameValidation.Validate` | src/routes/users/change_username.rs:18-29 | validation succeeds iff a present username has 2 to 32 characters all in the class and the password has 8 to 72; a failure carries a non-empty set holding each broken rule, and only those, stated rule by rule in terms of the fields |
| `UsernameValidation.PresentUsernameAcceptedIff` | src/routes/users/change_username.rs:15-23 | with a username present, the request passes iff the username has 2 to 32 characters, all in `[A-Za-z0-9_.]`, and the password has 8 to 72 characters |
| `UsernameValidation.AbsentUsernameAcceptedIff` | src/routes/users/change_username.rs:20-23 | with no username, the request passes iff the password has 8 to 72 characters |
| `UsernameValidation.PasswordRuleIndependent` | src/routes/users/change_username.rs:22-23 | the password length rule is reported exactly when the password is outside [8, 72], and such a request fails whatever the username |
| `UsernameValidation.ForeignCharacterRejected` | src/routes/users/change_username.rs:15-21 | a username containing any character outside the class breaks the pattern rule and fails validation, whatever its length |
| `UsernameValidation.EmptyUsernameRejected` | src/routes/users/change_username.rs:15-21 | a present empty username breaks both the length rule and the pattern rule |
| `UserCollection.ApplySet` | src/routes/users/change_username.rs:44-49 | `update_one` with a `$set` keeps the same `_id`s and leaves every other document alone; on the target, the fields become those it had plus those set, set fields take the new values and the rest keep the old ones; with no matching document nothing changes |
| `UserCollection.EmptySetIsNoOp` | src/routes/users/change_username.rs:35-49 | an update whose `$set` is empty leaves the whole collection unchanged, the target included |
| `UserCollection.SetUsernameEffect` | src/routes/users/change_username.rs:41-49 | setting the username gives the target exactly the new username and leaves every other user's username as it was |
| `UserCollection.SetUsernamePreservesUnique` | src/routes/users/change_username.rs:36-49 | if usernames were unique and no other user holds the new one, they are still unique after the write |
| `ProfileUpdate.SetDocument` | src/routes/users/change_username.rs:35-42 | the `$set` document holds at most the `username` field, present exactly when a username was requested and holding it, so the request's username can be read back from it |
| `ProfileUpdate.UserStore.ChangeUsername` | src/routes/users/change_username.rs:27-62 | validation failure gives `FailedValidation` with the broken rules and no call at all. A wrong password gives `InvalidCredentials` after only the password check. A failing or positive uniqueness check gives its error or `UsernameTaken` with no write or publish. A failed write gives `DatabaseError("update_one", "user")` and nothing is published. The collection is then as before, or changed by the `$set` if the store reports that the write took effect. Before the write is issued, no failure changes the collection. A successful write gives `Ok` whatever the publish outcome, after exactly one publish on the user's id. The calls are made in the order password, uniqueness (only when a username is given), write, publish. The result is `Ok` iff every check passed and the write was acknowledged. Documents of other users never change and no document appears or vanishes. An absent username changes nothing. A present one becomes the target's username. Usernames stay unique when the uniqueness check is sound |

## Left out

- `crates/quark/src/impl/dummy/safety/snapshot.rs`: `insert_snapshot` only logs and returns `Ok(())`. It is not called by this handler, and there is nothing to verify in it.
- The internals of `auth.verify_password`, `User::is_username_taken`, `get_collection`/`update_one` and `ClientboundNotification::publish`: foreign calls into the authentication library, the database driver and the notification transport. Their outcomes are inputs (`Services`).
- Routing, session and `User` resolution, JSON decoding of the body, and the BSON encoding of the filter and update: framework code. A body that does not decode never reaches the handler.
- The serialised payload `json!(data.0)`: the event is modelled as the request value itself.
- The field-level detail of validation errors (messages, parameters): only which rules are broken is kept.
- Async suspension and concurrent requests. The model is one sequential invocation, so the check-then-write race between two requests proposing the same username is not represented.
- Regular expressions in general. Only the one pattern is modelled, as a matcher over its character class.
- `ProfileUpdate.UserStore.ChangeUsername`: does not state that usernames stay unique without assuming `TakenCheckSound`, because `is_username_taken` is uninterpreted.
