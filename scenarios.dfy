/**
 * Client-side sequences of requests against the controllers, with the relying party left
 * arbitrary: what the endpoints promise each other when called in order on one session
 * and one shared repository.
 */
module Scenarios {
  import opened Wrappers
  import opened JavaText
  import opened WebAuthnTypes
  import opened CredentialQueries
  import opened Repository
  import opened RepositoryLaws
  import opened Http
  import opened RelyingPartyOracle
  import opened RegistrationController
  import opened AuthenticationController
  import opened UserProfileController
  import opened PasskeyManagementController

  /** A new user "alice" registers on an empty repository. When finish answers 200, the
      relying party built creation options at start, whether serialising them for the
      browser then succeeded (start answered 200) or failed after they were parked (start
      answered 500); alice then lists exactly one passkey, named "Passkey 1" and filed under
      the handle drawn for her. */
  method RegisterFirstPasskey(relyingParty: RelyingParty, freshHandle: Bytes, credentialJson: string,
                              createdAt: Timestamp, lastUsed: Timestamp)
    returns (repository: InMemoryCredentialRepository, started: Response, finished: Response)
    ensures repository.Valid()
    ensures finished.status == Ok ==>
      var created := EmptyStore.CreateUser("alice", "Alice", freshHandle);
      var outcome := relyingParty.startRegistration(UserIdentity("alice", "Alice", freshHandle),
                                                    created.users, created.credentialsByUserHandle);
      && (outcome.CreationOptions? || outcome.CreateJsonFailed?)
      && (outcome.CreationOptions? ==> started.status == Ok)
      && (outcome.CreateJsonFailed? ==> started == Response(InternalServerError, NoBody))
    ensures finished.status == Ok ==>
      && repository.State().PasskeyCount("alice") == 1
      && (exists c :: && c in repository.State().ListedCredentials("alice")
                      && c.userHandle == freshHandle
                      && repository.passkeyMetadata[IdString(c.credentialId)].name == "Passkey 1")
  {
    repository := new InMemoryCredentialRepository();
    var registration := new WebAuthnRegistrationController(relyingParty, repository);
    var session := new Session();
    assert !IsBlank("alice") by { assert !IsJavaWhitespace("alice"[0]); }
    assert !IsBlank("Alice") by { assert !IsJavaWhitespace("Alice"[0]); }
    started := registration.StartRegistration(Some(RegistrationRequest(Some("alice"), Some("Alice"))), session, freshHandle);
    ghost var afterStart := repository.State();
    ghost var pending := session.attributes;
    finished := registration.FinishRegistration(credentialJson, session, createdAt, lastUsed);
    if finished.status == Ok {
      var outcome := relyingParty.finishRegistration(pending[SESSION_REGISTRATION_OPTIONS], credentialJson,
                                                     afterStart.users, afterStart.credentialsByUserHandle);
      var credential := RegisteredCredential(outcome.keyId, freshHandle, outcome.publicKeyCose, outcome.signatureCount);
      FirstPasskeyAfterCreate(EmptyStore, "alice", "Alice", freshHandle, credential, createdAt, lastUsed);
    }
  }

  /** A start that answers 500 is not always a dead end: with a relying party whose
      options cannot be serialised for the browser but whose verdict is positive, start
      answers 500 with the options already parked, and a finish on the same session then
      registers the credential and answers 200. */
  method FinishAfterFailedStart(freshHandle: Bytes, credentialJson: string, createdAt: Timestamp, lastUsed: Timestamp)
    returns (started: Response, finished: Response)
    ensures started == Response(InternalServerError, NoBody)
    ensures finished == Response(Ok, Json(RegisteredJson("alice")))
  {
    var relyingParty := RelyingParty(
      (user: UserIdentity, users: Users, byHandle: CredentialSets) => CreateJsonFailed("{}"),
      (options: string, response: string, users: Users, byHandle: CredentialSets) => Registered([1], [2], 0),
      (username: Option<string>, users: Users, byHandle: CredentialSets) => AssertionStartFailed(""),
      (request: string, response: string, users: Users, byHandle: CredentialSets) => AssertionError);
    var repository := new InMemoryCredentialRepository();
    var registration := new WebAuthnRegistrationController(relyingParty, repository);
    var session := new Session();
    assert !IsBlank("alice") by { assert !IsJavaWhitespace("alice"[0]); }
    assert !IsBlank("Alice") by { assert !IsJavaWhitespace("Alice"[0]); }
    started := registration.StartRegistration(Some(RegistrationRequest(Some("alice"), Some("Alice"))), session, freshHandle);
    finished := registration.FinishRegistration(credentialJson, session, createdAt, lastUsed);
  }

  /** An assertion request serves one attempt: a second finish on the same session, with
      no start in between, is refused with 400. */
  method AuthenticationIsSingleUse(authentication: WebAuthnAuthenticationController, session: Session,
                                   firstJson: string, secondJson: string)
    returns (first: Response, second: Response)
    requires authentication.credentialRepository.Valid()
    modifies authentication.credentialRepository, session
    ensures second == Response(BadRequest, Json(AUTHENTICATION_TIMED_OUT))
  {
    first := authentication.FinishAuthentication(firstJson, session);
    second := authentication.FinishAuthentication(secondJson, session);
  }

  /** A registration finish that does not succeed keeps the parked options and username,
      so the client can retry against the same options. */
  method FailedRegistrationKeepsOptions(registration: WebAuthnRegistrationController, session: Session,
                                        credentialJson: string, createdAt: Timestamp, lastUsed: Timestamp)
    returns (response: Response)
    requires registration.credentialRepository.Valid()
    requires RegistrationPending(session.attributes)
    modifies registration.credentialRepository, session
    ensures response.status != Ok ==> RegistrationPending(session.attributes) && session.attributes == old(session.attributes)
    ensures response.status == Ok ==> !RegistrationPending(session.attributes)
  {
    response := registration.FinishRegistration(credentialJson, session, createdAt, lastUsed);
  }

  /** With a relying party that only vouches for stored credentials, a successful
      authentication is followed by a profile for that user, unless the username trims to
      nothing. */
  method ProfileAfterAuthentication(authentication: WebAuthnAuthenticationController, profile: UserProfileController,
                                    session: Session, credentialJson: string)
    returns (authenticated: Response, shown: Response)
    requires authentication.credentialRepository == profile.credentialRepository
    requires authentication.credentialRepository.Valid()
    modifies authentication.credentialRepository, session
    ensures authenticated.status == Ok && authentication.relyingParty.ResolvesStoredCredential() ==>
      && SESSION_AUTHENTICATED_USER in session.attributes
      && var username := session.attributes[SESSION_AUTHENTICATED_USER];
         && (Trim(username) != [] ==>
               shown.status == Ok && shown.body.ProfileData? && shown.body.username == username && shown.body.email == username)
         && (Trim(username) == [] ==> shown == Response(Unauthorized, ErrorMessage(NOT_AUTHENTICATED)))
  {
    authenticated := authentication.FinishAuthentication(credentialJson, session);
    shown := profile.GetUserProfile(session);
  }

  /** A username made of a control character such as U+0000 is not blank, so registration
      accepts it, yet it trims to nothing, so the profile endpoint treats its session as
      not authenticated. */
  lemma ControlCharacterUsername()
    ensures !IsBlank("\U{0}") && Trim("\U{0}") == []
  {
    assert !IsJavaWhitespace("\U{0}"[0]);
    TrimEmptyIff("\U{0}");
  }

  /** On a repository whose credential ids are unique, as registration through a relying
      party that rejects known ids keeps it, deleting never takes a user's last passkey. */
  method DeleteKeepsAPasskey(management: PasskeyManagementController, session: Session, passkeyId: string)
    returns (response: Response)
    requires management.credentialRepository.Valid()
    requires UniqueCredentialIds(management.credentialRepository.State())
    requires SESSION_AUTHENTICATED_USER in session.attributes
    requires management.credentialRepository.State().PasskeyCount(session.attributes[SESSION_AUTHENTICATED_USER]) >= 1
    modifies management.credentialRepository
    ensures management.credentialRepository.State().PasskeyCount(session.attributes[SESSION_AUTHENTICATED_USER]) >= 1
  {
    UniqueIdsGiveDistinctIds(management.credentialRepository.State(), session.attributes[SESSION_AUTHENTICATED_USER]);
    response := management.DeletePasskey(passkeyId, session);
  }
}
