# Passkey backend: credential store and ceremony controllers in Dafny

This project models the core of a Spring passkey (WebAuthn) backend:

- the in-memory credential repository that the controllers share. It holds five maps:
  - usernames to user identities;
  - user handles to credential sets;
  - credential ids to usernames;
  - base64url id strings to passkey metadata;
  - usernames to a per-user passkey counter.
- the older root-package repository, which has the first three maps only;
- the two-phase (start/finish) registration and authentication endpoints, which keep their pending state in the HTTP session;
- the passkey-management endpoints: list, rename, delete with a last-passkey guard, and start-add;
- the user-profile endpoints: profile, logout and authentication status.

**Layout.**
- `Repository.StoreState` is the value of the five maps. It has one specification function per store operation.
- `Repository.InMemoryCredentialRepository` is a class whose methods update those maps in place. Each changing method is proved to produce the state its specification function gives. The exception is `UpdateSignatureCount`: which matching record it replaces depends on hash-set order, so its new state is specified by the relation `SignatureCountUpdated`.
- `RepositoryLaws` proves what the operations promise together:
  - passkey ordinals are never reused along any run of operations;
  - adding a credential lists one more passkey;
  - the last-passkey guard works when credential ids are unique;
  - renaming or deleting cannot reach another user's passkey;
  - credentials stay filed under their own handle;
  - unique credential ids stay unique;
  - user handles stay unique as long as each new user's handle is fresh. A handle that collides with another user's empties that user's credential set.
- `CredentialQueries` holds the lookups that both repository classes share.

**Where Java iterates a hash map or hash set and takes the first match,** the model is a loop that picks an arbitrary remaining element. Its contract holds for every order.

**Supporting code written out in Dafny:**
- base64url without padding (section 5 of RFC 4648): the encoder behind `ByteArray.getBase64Url`, with a decoder and a proved round trip, so id strings identify credential ids;
- `String.trim`, `String.isBlank` and `String.replace`;
- `Integer.toString`, whose output is proved to read back;
- 32-bit `int` increment.

**The WebAuthn relying party** (the Yubico library) is a set of four functions the controllers receive. Each function also sees the repository's identities and credential sets.
- Two predicates name what the library is relied on for:
  - `RejectsKnownIds`: it refuses a credential id that `lookupAll` already finds;
  - `ResolvesStoredCredential`: a successful assertion names a stored user and credential.
- Results that depend on these predicates are stated conditionally on them.

**Where the code departs from what a passkey store is usually expected to do, the model follows the code:**
- `addCredential` does not reject an id that is already stored. Uniqueness holds only through the relying party (`UniqueIdsPreserved`).
- The last-passkey rule is enforced only by the delete endpoint, which counts listed passkeys. The store itself deletes freely.
- A failed registration finish keeps the parked options and username. The client can retry (`Scenarios.FailedRegistrationKeepsOptions`).
- Authentication requests are single-use: finish removes the request before verifying it (`Scenarios.AuthenticationIsSingleUse`).
- Registration and authentication keep their pending state under different session keys. Starting one does not discard the other.
- Both start endpoints park their options in the session before serialising them for the browser. If that serialisation fails, start answers 500 but the options stay parked. A later finish can still succeed (`Scenarios.FinishAfterFailedStart`).
- `lastUsed` is set once, when the passkey is created, and never updated.
- The signature count is overwritten on every successful assertion, without any comparison with the stored count.
- `createUser` overwrites an existing identity and empties that handle's credential set. The registration endpoint calls it only for unknown usernames.

**Two edge cases the proofs make visible:**
- `RepositoryLaws.DuplicateIdsDefeatGuard`: if one user's set holds two records with the same credential id, the delete guard counts two passkeys. One deletion then removes both records. This cannot happen while ids are unique (`Scenarios.DeleteKeepsAPasskey`).
- `Scenarios.ControlCharacterUsername`: registration rejects only blank usernames (`Character.isWhitespace`), but the profile endpoint rejects usernames that trim to nothing (every character at or below U+0020). So a username such as U+0000 registers and authenticates, but its profile request answers 401.

## Model

| member | source | states |
|---|---|---|
| JavaText.Trim | src/main/java/com/sogeti/passkey_backend_yubico/controller/PasskeyManagementController.java:58 | `String.trim`: the result is an infix of the input; everything cut off is at or below U+0020; the result neither starts nor ends with such a character |
| JavaText.TrimEmptyIff | src/main/java/com/sogeti/passkey_backend_yubico/controller/UserProfileController.java:38 | `trim().isEmpty()` holds exactly when every character is at or below U+0020 |
| JavaText.TrimIdempotent | src/main/java/com/sogeti/passkey_backend_yubico/controller/PasskeyManagementController.java:57-63 | trimming the trimmed name changes nothing, so the name stored by a rename has no surrounding whitespace |
| JavaText.NatToString | src/main/java/com/sogeti/passkey_backend_yubico/repository/InMemoryCredentialRepository.java:122 | the decimal digits of the counter: at least one digit, no leading zero except for 0 |
| JavaText.NatToStringRoundTrip | src/main/java/com/sogeti/passkey_backend_yubico/repository/InMemoryCredentialRepository.java:122 | the printed counter reads back to the counter |
| JavaText.IntToStringInjective | src/main/java/com/sogeti/passkey_backend_yubico/repository/InMemoryCredentialRepository.java:122 | different counters print differently (negative values carry a minus sign) |
| JavaText.Replace | src/main/java/com/sogeti/passkey_backend_yubico/controller/WebAuthnAuthenticationController.java:70 | `replace('"', '\'')`: same length, each quote replaced, every other character kept, no quote left |
| Base64Url.Sextets | src/main/java/com/sogeti/passkey_backend_yubico/repository/InMemoryCredentialRepository.java:119 | base64url splits n bytes into ceil(4n/3) six-bit digits |
| Base64Url.RoundTrip | src/main/java/com/sogeti/passkey_backend_yubico/repository/InMemoryCredentialRepository.java:119 | decoding the base64url text of a byte string gives the bytes back |
| Base64Url.Injective | src/main/java/com/sogeti/passkey_backend_yubico/repository/InMemoryCredentialRepository.java:119 | different byte strings have different base64url texts |
| WebAuthnTypes.IdStringInjective | src/main/java/com/sogeti/passkey_backend_yubico/repository/InMemoryCredentialRepository.java:187 | `getBase64Url()` of different credential ids differs, so matching id strings means matching ids |
| WebAuthnTypes.IntSucc | src/main/java/com/sogeti/passkey_backend_yubico/repository/InMemoryCredentialRepository.java:116 | `getOrDefault(...) + 1` on a Java `int`: in range, and one more except that `Integer.MAX_VALUE` wraps to `Integer.MIN_VALUE` |
| WebAuthnTypes.PasskeyNameInjective | src/main/java/com/sogeti/passkey_backend_yubico/repository/InMemoryCredentialRepository.java:122 | different counter values give different `"Passkey " + counter` names |
| CredentialQueries.FindUsernameForHandle | src/main/java/com/sogeti/passkey_backend_yubico/repository/InMemoryCredentialRepository.java:61-69 | `getUsernameForUserHandle`: a name of an identity with that handle, None exactly when there is none |
| CredentialQueries.HandleRoundTrip | src/main/java/com/sogeti/passkey_backend_yubico/repository/InMemoryCredentialRepository.java:48-69 | with names matching keys and unique handles, a username's handle leads back to exactly that username |
| CredentialQueries.FindCredential | src/main/java/com/sogeti/passkey_backend_yubico/repository/InMemoryCredentialRepository.java:133-138 | the search loop: a credential of the set with that id, None exactly when the set has none |
| CredentialQueries.LookupAll | src/main/java/com/sogeti/passkey_backend_yubico/repository/InMemoryCredentialRepository.java:83-89 | `lookupAll`: exactly the stored credentials with that id, under any handle |
| CredentialQueries.Lookup | src/main/java/com/sogeti/passkey_backend_yubico/repository/InMemoryCredentialRepository.java:72-80 | `lookup`: a credential with that id from that handle's set only, None exactly when the handle has no set or no such credential |
| CredentialQueries.CredentialIdsFor | src/main/java/com/sogeti/passkey_backend_yubico/repository/InMemoryCredentialRepository.java:30-45 | `getCredentialIdsForUsername`: exactly the ids of the user's credentials, empty for an unknown user |
| CredentialQueries.SignatureCountUpdateEffect | src/main/java/com/sogeti/passkey_backend_yubico/repository/InMemoryCredentialRepository.java:129-151 | after a signature-count update the handle's set holds the id with the new count, keeps every other id, gains nothing else, and other handles are untouched |
| CredentialQueries.DistinctLength | src/main/java/com/sogeti/passkey_backend_yubico/repository/InMemoryCredentialRepository.java:152-164 | a duplicate-free listing of a set is as long as the set |
| Repository.StoreState.CreateUser | src/main/java/com/sogeti/passkey_backend_yubico/repository/InMemoryCredentialRepository.java:99-109 | `createUser` keeps the store invariant |
| Repository.StoreState.AddCredential | src/main/java/com/sogeti/passkey_backend_yubico/repository/InMemoryCredentialRepository.java:111-127 | `addCredential` keeps the store invariant, including counters within `int` range |
| Repository.StoreState.RenamePasskey | src/main/java/com/sogeti/passkey_backend_yubico/repository/InMemoryCredentialRepository.java:166-180 | `updatePasskeyName` keeps the store invariant |
| Repository.StoreState.DeletePasskey | src/main/java/com/sogeti/passkey_backend_yubico/repository/InMemoryCredentialRepository.java:182-197 | `deletePasskey` keeps the store invariant |
| Repository.InMemoryCredentialRepository.constructor | src/main/java/com/sogeti/passkey_backend_yubico/repository/InMemoryCredentialRepository.java:22-27 | the store starts with five empty maps and satisfies its invariant |
| Repository.InMemoryCredentialRepository.GetUserHandleForUsername | src/main/java/com/sogeti/passkey_backend_yubico/repository/InMemoryCredentialRepository.java:48-58 | the stored identity's handle, which leads back to the username |
| Repository.InMemoryCredentialRepository.GetUsernameForUserHandle | src/main/java/com/sogeti/passkey_backend_yubico/repository/InMemoryCredentialRepository.java:61-69 | a username whose own handle is the given one; None exactly when no identity has it |
| Repository.InMemoryCredentialRepository.Lookup | src/main/java/com/sogeti/passkey_backend_yubico/repository/InMemoryCredentialRepository.java:72-80 | a credential with that id from that handle's set; None exactly when there is none |
| Repository.InMemoryCredentialRepository.LookupAll | src/main/java/com/sogeti/passkey_backend_yubico/repository/InMemoryCredentialRepository.java:83-89 | every stored credential with that id |
| Repository.InMemoryCredentialRepository.GetCredentialIdsForUsername | src/main/java/com/sogeti/passkey_backend_yubico/repository/InMemoryCredentialRepository.java:30-45 | exactly the ids of the user's credentials |
| Repository.InMemoryCredentialRepository.UserExists | src/main/java/com/sogeti/passkey_backend_yubico/repository/InMemoryCredentialRepository.java:95-97 | true exactly when the handle lookup finds the user |
| Repository.InMemoryCredentialRepository.GetUserByUsername | src/main/java/com/sogeti/passkey_backend_yubico/repository/InMemoryCredentialRepository.java:91-93 | present exactly when the user exists; it carries the username and the handle the handle lookup reports |
| Repository.InMemoryCredentialRepository.CreateUser | src/main/java/com/sogeti/passkey_backend_yubico/repository/InMemoryCredentialRepository.java:99-109 | the new state is `StoreState.CreateUser` of the old; the invariant is kept |
| Repository.InMemoryCredentialRepository.AddCredential | src/main/java/com/sogeti/passkey_backend_yubico/repository/InMemoryCredentialRepository.java:111-127 | the new state is `StoreState.AddCredential` of the old; the invariant is kept |
| Repository.InMemoryCredentialRepository.UpdateSignatureCount | src/main/java/com/sogeti/passkey_backend_yubico/repository/InMemoryCredentialRepository.java:129-151 | one matching credential is swapped for a copy with the new count; nothing else changes |
| Repository.InMemoryCredentialRepository.GetPasskeysForUser | src/main/java/com/sogeti/passkey_backend_yubico/repository/InMemoryCredentialRepository.java:152-164 | one metadata entry per listed credential, each exactly once; length equals the passkey count; an unknown user gets an empty list |
| Repository.InMemoryCredentialRepository.GetPasskeyCountForUser | src/main/java/com/sogeti/passkey_backend_yubico/repository/InMemoryCredentialRepository.java:199-202 | the number of listed credentials; 0 for an unknown user |
| Repository.InMemoryCredentialRepository.UpdatePasskeyName | src/main/java/com/sogeti/passkey_backend_yubico/repository/InMemoryCredentialRepository.java:166-180 | true exactly when the metadata exists and the user owns the passkey; the new state is `StoreState.RenamePasskey` of the old |
| Repository.InMemoryCredentialRepository.DeletePasskey | src/main/java/com/sogeti/passkey_backend_yubico/repository/InMemoryCredentialRepository.java:182-197 | true exactly when the user owns the passkey; the new state is `StoreState.DeletePasskey` of the old |
| RepositoryLaws.CreateUserStartsOver | src/main/java/com/sogeti/passkey_backend_yubico/repository/InMemoryCredentialRepository.java:99-109 | a recreated user has the new identity, no credentials, no passkeys and a zero counter |
| RepositoryLaws.AddCredentialEffect | src/main/java/com/sogeti/passkey_backend_yubico/repository/InMemoryCredentialRepository.java:111-127 | for a stored user, the credential is in the user's set and listed; its id maps to the user; the counter is one more (wrapping); the metadata is named after the new counter |
| RepositoryLaws.ListedAfterAdd | src/main/java/com/sogeti/passkey_backend_yubico/repository/InMemoryCredentialRepository.java:111-127 | after adding a credential whose id the user does not hold, the user's list is the old list plus that credential |
| RepositoryLaws.AddCredentialCountsOne | src/main/java/com/sogeti/passkey_backend_yubico/repository/InMemoryCredentialRepository.java:111-127 | adding a credential whose id the user does not hold lists exactly one more passkey; if every credential of the user had metadata, every one still has |
| RepositoryLaws.UnknownIdNotHeld | src/main/java/com/sogeti/passkey_backend_yubico/repository/InMemoryCredentialRepository.java:83-89 | an id that `lookupAll` does not find is in no user's set |
| RepositoryLaws.UnknownIdCountsOne | src/main/java/com/sogeti/passkey_backend_yubico/repository/InMemoryCredentialRepository.java:83-127 | adding a credential whose id `lookupAll` does not find lists exactly one more passkey |
| RepositoryLaws.FirstPasskeyAfterCreate | src/main/java/com/sogeti/passkey_backend_yubico/repository/InMemoryCredentialRepository.java:99-127 | a user created and then given a credential lists exactly one passkey, named "Passkey 1" |
| RepositoryLaws.CounterAlongRun | src/main/java/com/sogeti/passkey_backend_yubico/repository/InMemoryCredentialRepository.java:116-117 | along any run of operations that does not recreate the user and does not reach `Integer.MAX_VALUE`, the counter grows by one per added credential and never falls; the k-th new passkey is named after counter + k |
| RepositoryLaws.OrdinalsNeverReused | src/main/java/com/sogeti/passkey_backend_yubico/repository/InMemoryCredentialRepository.java:116-122 | the passkey names such a run hands out are pairwise different, and none repeats a name up to the starting counter, whatever was deleted in between |
| RepositoryLaws.DeleteRemovesOnlyThatId | src/main/java/com/sogeti/passkey_backend_yubico/repository/InMemoryCredentialRepository.java:182-197 | deletion removes from the user's list exactly the credentials with that id string and leaves the counters alone |
| RepositoryLaws.AtMostOneWithIdString | src/main/java/com/sogeti/passkey_backend_yubico/repository/InMemoryCredentialRepository.java:187 | among credentials with distinct ids, at most one matches an id string |
| RepositoryLaws.DeleteReducesCountByOne | src/main/java/com/sogeti/passkey_backend_yubico/repository/InMemoryCredentialRepository.java:182-197 | with distinct ids, deleting a listed passkey lowers the count by exactly one |
| RepositoryLaws.DeleteLeavesAPasskey | src/main/java/com/sogeti/passkey_backend_yubico/controller/PasskeyManagementController.java:89-95 | with distinct ids and at least two passkeys, any deletion leaves at least one |
| RepositoryLaws.DuplicateIdsDefeatGuard | src/main/java/com/sogeti/passkey_backend_yubico/repository/InMemoryCredentialRepository.java:187 | a concrete store where two same-id records count as two passkeys and one deletion removes both |
| RepositoryLaws.CrossUserRenameFails | src/main/java/com/sogeti/passkey_backend_yubico/repository/InMemoryCredentialRepository.java:166-197 | renaming or deleting another user's passkey fails and changes nothing |
| RepositoryLaws.FilingPreserved | src/main/java/com/sogeti/passkey_backend_yubico/repository/InMemoryCredentialRepository.java:99-127 | every operation keeps each credential under its own user handle |
| RepositoryLaws.FilingPreservedBySignatureUpdate | src/main/java/com/sogeti/passkey_backend_yubico/repository/InMemoryCredentialRepository.java:129-151 | signature-count updates keep each credential under its own user handle |
| RepositoryLaws.UniqueIdsPreserved | src/main/java/com/sogeti/passkey_backend_yubico/repository/InMemoryCredentialRepository.java:111-114 | every operation keeps credential ids unique, given that an added id is not already stored |
| RepositoryLaws.UniqueIdsPreservedBySignatureUpdate | src/main/java/com/sogeti/passkey_backend_yubico/repository/InMemoryCredentialRepository.java:129-151 | signature-count updates keep credential ids unique |
| RepositoryLaws.UniqueIdsGiveDistinctIds | src/main/java/com/sogeti/passkey_backend_yubico/repository/InMemoryCredentialRepository.java:187 | unique ids imply distinct ids within each user's set |
| RepositoryLaws.UniqueIdsHeldOnlyUnder | src/main/java/com/sogeti/passkey_backend_yubico/repository/InMemoryCredentialRepository.java:83-89 | unique ids imply that `lookupAll` finds a stored id under its own handle only |
| RepositoryLaws.CreateUserKeepsHandlesUnique | src/main/java/com/sogeti/passkey_backend_yubico/repository/InMemoryCredentialRepository.java:99-109 | creating a user under a handle no other identity carries keeps user handles unique, so the handle round trip still holds |
| RepositoryLaws.HandleCollisionEmptiesOtherUser | src/main/java/com/sogeti/passkey_backend_yubico/repository/InMemoryCredentialRepository.java:99-109 | creating a user under another user's handle leaves that user with no credentials and no passkeys, and two names share the handle |
| RepositoryLaws.HandlesUniquePreserved | src/main/java/com/sogeti/passkey_backend_yubico/repository/InMemoryCredentialRepository.java:99-197 | every operation keeps user handles unique when a created user's handle is fresh; every operation except `createUser` leaves the identities unchanged |
| RepositoryLaws.RegisteredCredentialEffect | src/main/java/com/sogeti/passkey_backend_yubico/repository/InMemoryCredentialRepository.java:111-127 | filing a registered credential under its stored user's handle keeps credentials under their own handles. When `lookupAll` did not know the id, it also keeps ids unique and lists exactly one more passkey |
| LegacyRepository.InMemoryCredentialRepository.constructor | src/main/java/com/sogeti/passkey_backend_yubico/InMemoryCredentialRepository.java:29-31 | three empty maps |
| LegacyRepository.InMemoryCredentialRepository.GetCredentialIdsForUsername | src/main/java/com/sogeti/passkey_backend_yubico/InMemoryCredentialRepository.java:36-51 | exactly the ids of the user's credentials |
| LegacyRepository.InMemoryCredentialRepository.GetUserHandleForUsername | src/main/java/com/sogeti/passkey_backend_yubico/InMemoryCredentialRepository.java:54-67 | the entry walk finds the same handle as the shared query; present exactly when the username is stored |
| LegacyRepository.InMemoryCredentialRepository.GetUsernameForUserHandle | src/main/java/com/sogeti/passkey_backend_yubico/InMemoryCredentialRepository.java:70-78 | a username whose own handle is the given one; None exactly when no identity has it |
| LegacyRepository.InMemoryCredentialRepository.Lookup | src/main/java/com/sogeti/passkey_backend_yubico/InMemoryCredentialRepository.java:81-89 | a credential with that id from that handle's set; None exactly when there is none |
| LegacyRepository.InMemoryCredentialRepository.LookupAll | src/main/java/com/sogeti/passkey_backend_yubico/InMemoryCredentialRepository.java:92-98 | every stored credential with that id |
| LegacyRepository.InMemoryCredentialRepository.CreateUser | src/main/java/com/sogeti/passkey_backend_yubico/InMemoryCredentialRepository.java:101-110 | the identity is stored or replaced; the handle gets an empty set; the id map is untouched |
| LegacyRepository.InMemoryCredentialRepository.AddCredential | src/main/java/com/sogeti/passkey_backend_yubico/InMemoryCredentialRepository.java:112-115 | the handle's set gains the credential, created when absent; other handles are unchanged; the id maps to the user's name |
| LegacyRepository.InMemoryCredentialRepository.UpdateSignatureCount | src/main/java/com/sogeti/passkey_backend_yubico/InMemoryCredentialRepository.java:117-139 | the same swap as the repository package's store; users and id map unchanged |
| Http.Session.GetAttribute | src/main/java/com/sogeti/passkey_backend_yubico/controller/WebAuthnAuthenticationController.java:81 | the attribute's value, None when absent (Java `null`) |
| Http.Session.SetAttribute | src/main/java/com/sogeti/passkey_backend_yubico/controller/WebAuthnRegistrationController.java:95-96 | the attribute is set; nothing else changes |
| Http.Session.RemoveAttribute | src/main/java/com/sogeti/passkey_backend_yubico/controller/WebAuthnRegistrationController.java:162-163 | the attribute is removed; nothing else changes |
| Http.Session.Invalidate | src/main/java/com/sogeti/passkey_backend_yubico/controller/UserProfileController.java:80 | all attributes are unbound and the session is invalid |
| RegistrationController.CheckStartRequest | src/main/java/com/sogeti/passkey_backend_yubico/controller/WebAuthnRegistrationController.java:51-58 | a missing or blank username is reported first, then a missing or blank display name; otherwise both are accepted unchanged |
| RegistrationController.WebAuthnRegistrationController.StartRegistration | src/main/java/com/sogeti/passkey_backend_yubico/controller/WebAuthnRegistrationController.java:48-107 | 400 for a bad request with nothing changed. Otherwise a known user keeps the store unchanged and an unknown one is created with the fresh handle, even if the relying party then fails. Options and username are parked on 200. They are also parked on a 500 that comes from serialising for the browser; an earlier 500 leaves the session unchanged. A handle no stored identity carries keeps user handles unique |
| RegistrationController.WebAuthnRegistrationController.FinishRegistration | src/main/java/com/sogeti/passkey_backend_yubico/controller/WebAuthnRegistrationController.java:109-173 | 400 without parked state. A failed verdict gives 400 with the message and nothing changed. An unknown user gives 500. Otherwise the credential is filed under the user's handle and the parked state is cleared. Identities are never changed. Filing by handle is kept. When the relying party rejects known ids, id uniqueness is kept and a 200 lists exactly one more passkey for the user |
| AuthenticationController.RequestedUsername | src/main/java/com/sogeti/passkey_backend_yubico/controller/WebAuthnAuthenticationController.java:45-56 | the username is passed on exactly when present and not blank |
| AuthenticationController.WebAuthnAuthenticationController.StartAuthentication | src/main/java/com/sogeti/passkey_backend_yubico/controller/WebAuthnAuthenticationController.java:42-72 | the repository is untouched. The request is parked on 200, and also on a 500 that comes from serialising for the browser. Any 500 returns the quote-escaped message. An earlier 500 leaves the session unchanged |
| AuthenticationController.WebAuthnAuthenticationController.FinishAuthentication | src/main/java/com/sogeti/passkey_backend_yubico/controller/WebAuthnAuthenticationController.java:74-121 | 400 without a parked request; otherwise the request is consumed on every path. On success the signature count is swapped and the username is recorded; 401 and 500 change nothing else. Identities are never changed. With a sound relying party a recorded user exists. Filing and id uniqueness are kept |
| PasskeyManagementController.RequestedName | src/main/java/com/sogeti/passkey_backend_yubico/controller/PasskeyManagementController.java:57-60 | the name is absent exactly when missing or all characters are at or below U+0020. Otherwise it is the trimmed, non-empty name, which is its own trim |
| PasskeyManagementController.PasskeyManagementController.GetUserPasskeys | src/main/java/com/sogeti/passkey_backend_yubico/controller/PasskeyManagementController.java:30-46 | 401 without login; otherwise exactly the listed passkeys' metadata, count equal to the passkey count |
| PasskeyManagementController.PasskeyManagementController.UpdatePasskeyName | src/main/java/com/sogeti/passkey_backend_yubico/controller/PasskeyManagementController.java:48-75 | 401, or 400 for a missing or empty name, with nothing changed. Otherwise the store renames to the trimmed name; 200 exactly when the metadata exists and the user owns the passkey, else 404 |
| PasskeyManagementController.PasskeyManagementController.DeletePasskey | src/main/java/com/sogeti/passkey_backend_yubico/controller/PasskeyManagementController.java:77-107 | 401 without login. 400 with nothing changed while at most one passkey is listed. Otherwise the store deletes; 200 exactly when owned, else 404. With distinct ids a user with a passkey keeps one |
| PasskeyManagementController.PasskeyManagementController.StartAddPasskey | src/main/java/com/sogeti/passkey_backend_yubico/controller/PasskeyManagementController.java:109-126 | 401 without login; otherwise the username is recorded under `add_passkey_username` |
| UserProfileController.UserProfileController.GetUserProfile | src/main/java/com/sogeti/passkey_backend_yubico/controller/UserProfileController.java:32-66 | 401 when the username is missing or trims to nothing. A username the store does not know gives 401 and is dropped from the session. Otherwise 200 with the name, display name and name as e-mail |
| UserProfileController.UserProfileController.Logout | src/main/java/com/sogeti/passkey_backend_yubico/controller/UserProfileController.java:68-87 | the session is emptied and invalidated; always 200 |
| UserProfileController.UserProfileController.GetAuthStatus | src/main/java/com/sogeti/passkey_backend_yubico/controller/UserProfileController.java:89-107 | 200 with the username exactly when it names a stored user; otherwise 401 and a stale username is dropped |
| Scenarios.RegisterFirstPasskey | src/main/java/com/sogeti/passkey_backend_yubico/controller/WebAuthnRegistrationController.java:48-173 | on an empty store, a 200 finish for "alice" means the relying party built creation options at start. Start answered 200 if serialising them succeeded, or 500 with the options already parked if it failed. Alice then lists one passkey, "Passkey 1", filed under her fresh handle |
| Scenarios.FinishAfterFailedStart | src/main/java/com/sogeti/passkey_backend_yubico/controller/WebAuthnRegistrationController.java:95-103 | with a relying party whose options cannot be serialised for the browser, start answers 500 after parking them, and a finish on the same session still answers 200 |
| Scenarios.AuthenticationIsSingleUse | src/main/java/com/sogeti/passkey_backend_yubico/controller/WebAuthnAuthenticationController.java:81-87 | a second finish without a new start is refused with 400 |
| Scenarios.FailedRegistrationKeepsOptions | src/main/java/com/sogeti/passkey_backend_yubico/controller/WebAuthnRegistrationController.java:117-163 | a finish that does not succeed leaves the parked state as it was; a successful one clears it |
| Scenarios.ProfileAfterAuthentication | src/main/java/com/sogeti/passkey_backend_yubico/controller/UserProfileController.java:36-60 | after a successful authentication with a sound relying party, the profile is that user's unless the username trims to nothing, which gives 401 |
| Scenarios.ControlCharacterUsername | src/main/java/com/sogeti/passkey_backend_yubico/controller/UserProfileController.java:38 | U+0000 is not blank for registration, yet it trims to nothing for the profile check |
| Scenarios.DeleteKeepsAPasskey | src/main/java/com/sogeti/passkey_backend_yubico/controller/PasskeyManagementController.java:89-95 | on a store with unique credential ids, deleting never takes a user's last passkey |

## Left out

- The relying-party library is not modelled. This covers challenge generation, attestation and assertion verification, and JSON (de)serialisation of options and responses. Its calls are parameters, and every exception it can throw is one of its outcomes.
- The library draws a random challenge on each start; the model's start functions are deterministic in their inputs.
- `SecureRandom`: the 64-byte handle of a new user is a parameter of `StartRegistration`. Nothing in the model makes it fresh. Unique user handles are promised only when it is fresh (`CreateUserKeepsHandlesUnique`), and `HandleCollisionEmptiesOtherUser` shows what a collision does.
- `LocalDateTime.now()`: the two clock readings of `addCredential` are parameters.
- Concurrency is not modelled: concurrent hash maps, interleaved requests, and the per-record atomicity the store would need. Requests run one at a time.
- Spring wiring, CORS, logging and the security and WebAuthn configuration classes are left out, as are the `com.example` stub package and the root-package `WebAuthnRegistrationController`. The root-package controller is not among the modelled endpoints.
- `model/PasskeyInfo.java` is not part of this model; `PasskeyInfo` takes its four fields from the constructor call in `addCredential`.
- Passkey metadata records are values, not shared objects. In Java, `setName` changes the object that a previously returned passkey list also holds; in the model an earlier list keeps the old name.
- The `catch` branches that answer 500 around repository calls in the management and profile endpoints are left out: no modelled repository call throws.
- The second `getUserHandleForUsername` call in `finishRegistration` reads the same map as the first, so its `User identity not found` branch cannot be taken; it is left out.
- A `null` exception message inside a `catch` block is left out.
- Servlet session lifetime is not modelled: expiry, the `IllegalStateException` from using an invalidated session, and the new session the container issues afterwards. `Invalidate` only empties the attributes and marks the session.
- Signature counts are Java `long`s that are only stored and never computed with, so they are unbounded integers.
- The private `generateRandom` of the root-package repository and `utils/ByteUtils` are unused by the modelled code.
- RepositoryLaws.CounterAlongRun: it leaves `updateSignatureCount` out of the run, because that operation never touches counters or metadata (`UpdateSignatureCount` states that everything but the credential sets is unchanged).
- RepositoryLaws.OrdinalsNeverReused: it assumes the counter stays below `Integer.MAX_VALUE` and the user is not recreated. Past the maximum the Java `int` wraps (see `IntSucc`), and `createUser` resets the counter to 0.
