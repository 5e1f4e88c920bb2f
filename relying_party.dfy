/**
 * The WebAuthn relying party (the Yubico library's `RelyingParty`), which is not part of
 * this model: its four calls are functions the controllers receive. Each call sees the
 * repository's identities and credential sets, because the library reads them through
 * the `CredentialRepository` interface; JSON parsing and serialisation of options and
 * responses are folded into these calls, and every exception they can throw is an
 * outcome.
 */
module RelyingPartyOracle {
  import opened Wrappers
  import opened WebAuthnTypes
  import opened CredentialQueries

  /** `startRegistration`: creation options as stored in the session (`toJson`) and as
      sent to the browser (`toCredentialsCreateJson`); options whose `toJson` succeeded but
      whose `toCredentialsCreateJson`, called after the session is written, threw; or an
      exception before anything is stored. */
  datatype RegistrationStart =
    | CreationOptions(json: string, credentialsCreateJson: string)
    | CreateJsonFailed(json: string)
    | RegistrationStartFailed

  /** `finishRegistration` on the stored options and the browser's response: the new
      credential's id, public key and signature count, or the exception's message. */
  datatype RegistrationFinish =
    | Registered(keyId: Bytes, publicKeyCose: Bytes, signatureCount: int)
    | RegistrationFailed(message: string)

  /** `startAssertion`: the request as stored (`toJson`) and as sent
      (`toCredentialsGetJson`); a request whose `toJson` succeeded but whose
      `toCredentialsGetJson`, called after the session is written, threw with a message; or
      the message of an exception before anything is stored. */
  datatype AssertionStart =
    | AssertionOptions(json: string, credentialsGetJson: string)
    | GetJsonFailed(json: string, message: string)
    | AssertionStartFailed(message: string)

  /** `finishAssertion`: a result that reports success, a result that does not, an
      `AssertionFailedException` with its message, or any other exception. */
  datatype AssertionFinish =
    | AssertionSucceeded(userHandle: Bytes, credentialId: Bytes, signatureCount: int, username: string)
    | AssertionNotSuccessful(resultUsername: string)
    | AssertionFailed(message: string)
    | AssertionError

  datatype RelyingParty = RelyingParty(
    startRegistration: (UserIdentity, Users, CredentialSets) -> RegistrationStart,
    finishRegistration: (string, string, Users, CredentialSets) -> RegistrationFinish,
    startAssertion: (Option<string>, Users, CredentialSets) -> AssertionStart,
    finishAssertion: (string, string, Users, CredentialSets) -> AssertionFinish)
  {
    /** The library refuses to register a credential id that `lookupAll` already finds. */
    ghost predicate RejectsKnownIds() {
      forall options: string, response: string, users: Users, byHandle: CredentialSets ::
        finishRegistration(options, response, users, byHandle).Registered? ==>
          LookupAll(byHandle, finishRegistration(options, response, users, byHandle).keyId) == {}
    }

    /** A successful assertion names a stored user by name and handle, and a credential
        that `lookup` finds under that handle. */
    ghost predicate ResolvesStoredCredential() {
      forall request: string, response: string, users: Users, byHandle: CredentialSets ::
        finishAssertion(request, response, users, byHandle).AssertionSucceeded? ==>
          var r := finishAssertion(request, response, users, byHandle);
          && r.username in users && users[r.username].id == r.userHandle
          && r.userHandle in byHandle && HasCredential(byHandle[r.userHandle], r.credentialId)
    }
  }
}
