/**
 * `POST /webauthn/register/start` and `/finish`. Start checks the request, finds or creates
 * the user, asks the relying party for creation options and parks them, with the username,
 * in the session; finish hands the parked options and the browser's response to the
 * relying party and stores the credential it returns.
 */
module RegistrationController {
  import opened Wrappers
  import opened JavaText
  import opened WebAuthnTypes
  import opened CredentialQueries
  import opened Repository
  import opened RepositoryLaws
  import opened Http
  import opened RelyingPartyOracle

  const SESSION_REGISTRATION_OPTIONS := "webauthn_registration_options"
  const SESSION_REGISTRATION_USERNAME := "webauthn_registration_username"

  const USERNAME_REQUIRED := "{\"error\":\"Username is required.\"}"
  const DISPLAY_NAME_REQUIRED := "{\"error\":\"Display name is required.\"}"
  const REGISTRATION_SESSION_EXPIRED := "{\"error\":\"Registration session expired or invalid\"}"
  const USER_NOT_FOUND := "{\"error\":\"User not found\"}"

  function RegisteredJson(username: string): string {
    "{\"success\":true,\"username\":\"" + username + "\"}"
  }

  function ErrorJson(message: string): string {
    "{\"error\":\"" + message + "\"}"
  }

  /** The request body; a missing field is Java's `null`. */
  datatype RegistrationRequest = RegistrationRequest(username: Option<string>, displayName: Option<string>)

  /** The outcome of the two request checks of `startRegistration`. */
  datatype StartCheck = MissingUsername | MissingDisplayName | Accepted(username: string, displayName: string)

  /** The username is checked first, then the display name; each must be present and not
      blank. */
  function CheckStartRequest(request: Option<RegistrationRequest>): (r: StartCheck)
    ensures r.MissingUsername? <==> request.None? || request.value.username.None? || IsBlank(request.value.username.value)
    ensures r.Accepted? <==>
      && request.Some?
      && request.value.username.Some? && !IsBlank(request.value.username.value)
      && request.value.displayName.Some? && !IsBlank(request.value.displayName.value)
    ensures r.Accepted? ==> Some(r.username) == request.value.username && Some(r.displayName) == request.value.displayName
  {
    if request.None? || request.value.username.None? || IsBlank(request.value.username.value) then MissingUsername
    else if request.value.displayName.None? || IsBlank(request.value.displayName.value) then MissingDisplayName
    else Accepted(request.value.username.value, request.value.displayName.value)
  }

  /** Both registration attributes are in the session. */
  predicate RegistrationPending(attributes: map<string, string>) {
    SESSION_REGISTRATION_OPTIONS in attributes && SESSION_REGISTRATION_USERNAME in attributes
  }

  class WebAuthnRegistrationController {
    const relyingParty: RelyingParty
    const credentialRepository: InMemoryCredentialRepository

    constructor (relyingParty: RelyingParty, credentialRepository: InMemoryCredentialRepository)
      ensures this.relyingParty == relyingParty && this.credentialRepository == credentialRepository
    {
      this.relyingParty := relyingParty;
      this.credentialRepository := credentialRepository;
    }

    /** `startRegistration`. `freshHandle` stands for the 64 bytes drawn from
        `SecureRandom` for a new user. A known username keeps its handle (and its stored
        display name, though the options carry the requested one); an unknown one is
        created before the relying party is asked, so it stays created when that fails. The
        options are parked before they are serialised for the browser, so a failure of that
        last step answers 500 with the options already parked. */
    method StartRegistration(request: Option<RegistrationRequest>, session: Session, freshHandle: Bytes)
      returns (response: Response)
      requires credentialRepository.Valid()
      modifies credentialRepository, session
      ensures credentialRepository.Valid()
      ensures session.invalidated == old(session.invalidated)
      ensures CheckStartRequest(request).MissingUsername? ==>
        response == Response(BadRequest, Json(USERNAME_REQUIRED)) && unchanged(credentialRepository, session)
      ensures CheckStartRequest(request).MissingDisplayName? ==>
        response == Response(BadRequest, Json(DISPLAY_NAME_REQUIRED)) && unchanged(credentialRepository, session)
      ensures CheckStartRequest(request).Accepted? ==>
        var username := CheckStartRequest(request).username;
        var displayName := CheckStartRequest(request).displayName;
        var known := username in old(credentialRepository.users);
        var identity := UserIdentity(username, displayName,
                                     if known then old(credentialRepository.users)[username].id else freshHandle);
        && credentialRepository.State()
           == (if known then old(credentialRepository.State())
               else old(credentialRepository.State()).CreateUser(username, displayName, freshHandle))
        && (match relyingParty.startRegistration(identity, credentialRepository.users, credentialRepository.credentialsByUserHandle)
            case CreationOptions(json, createJson) =>
              && response == Response(Ok, Json(createJson))
              && session.attributes == old(session.attributes)[SESSION_REGISTRATION_OPTIONS := json][SESSION_REGISTRATION_USERNAME := username]
            case CreateJsonFailed(json) =>
              && response == Response(InternalServerError, NoBody)
              && session.attributes == old(session.attributes)[SESSION_REGISTRATION_OPTIONS := json][SESSION_REGISTRATION_USERNAME := username]
            case RegistrationStartFailed =>
              response == Response(InternalServerError, NoBody) && session.attributes == old(session.attributes))
      ensures HandlesUnique(old(credentialRepository.users)) && NamesWithHandle(old(credentialRepository.users), freshHandle) == {} ==>
        HandlesUnique(credentialRepository.users)
    {
      var check := CheckStartRequest(request);
      if check.MissingUsername? {
        return Response(BadRequest, Json(USERNAME_REQUIRED));
      }
      if check.MissingDisplayName? {
        return Response(BadRequest, Json(DISPLAY_NAME_REQUIRED));
      }
      var username, displayName := check.username, check.displayName;

      var userIdentity: UserIdentity;
      var existingHandle := credentialRepository.GetUserHandleForUsername(username);
      if existingHandle.Some? {
        userIdentity := UserIdentity(username, displayName, existingHandle.value);
      } else {
        ghost var before := credentialRepository.State();
        userIdentity := credentialRepository.CreateUser(username, displayName, freshHandle);
        if HandlesUnique(before.users) && NamesWithHandle(before.users, freshHandle) == {} {
          CreateUserKeepsHandlesUnique(before, username, displayName, freshHandle);
        }
      }

      var options := relyingParty.startRegistration(userIdentity, credentialRepository.users, credentialRepository.credentialsByUserHandle);
      match options
      case RegistrationStartFailed =>
        response := Response(InternalServerError, NoBody);
      case CreationOptions(json, createJson) =>
        session.SetAttribute(SESSION_REGISTRATION_OPTIONS, json);
        session.SetAttribute(SESSION_REGISTRATION_USERNAME, username);
        response := Response(Ok, Json(createJson));
      case CreateJsonFailed(json) =>
        session.SetAttribute(SESSION_REGISTRATION_OPTIONS, json);
        session.SetAttribute(SESSION_REGISTRATION_USERNAME, username);
        response := Response(InternalServerError, NoBody);
    }

    /** `finishRegistration`. The relying party's verdict comes first; the credential is
        then filed under the handle stored for the username, with the username standing in
        for the display name. Only success clears the two attributes, so a failed attempt
        can be retried against the same options. */
    method FinishRegistration(publicKeyCredentialJson: string, session: Session, createdAt: Timestamp, lastUsed: Timestamp)
      returns (response: Response)
      requires credentialRepository.Valid()
      modifies credentialRepository, session
      ensures credentialRepository.Valid()
      ensures session.invalidated == old(session.invalidated)
      ensures !RegistrationPending(old(session.attributes)) ==>
        response == Response(BadRequest, Json(REGISTRATION_SESSION_EXPIRED)) && unchanged(credentialRepository, session)
      ensures RegistrationPending(old(session.attributes)) ==>
        var username := old(session.attributes)[SESSION_REGISTRATION_USERNAME];
        var options := old(session.attributes)[SESSION_REGISTRATION_OPTIONS];
        match relyingParty.finishRegistration(options, publicKeyCredentialJson,
                                              old(credentialRepository.users), old(credentialRepository.credentialsByUserHandle))
        case RegistrationFailed(message) =>
          response == Response(BadRequest, Json(ErrorJson(message))) && unchanged(credentialRepository, session)
        case Registered(keyId, publicKeyCose, signatureCount) =>
          if username !in old(credentialRepository.users) then
            response == Response(InternalServerError, Json(USER_NOT_FOUND)) && unchanged(credentialRepository, session)
          else
            var userHandle := old(credentialRepository.users)[username].id;
            && credentialRepository.State()
               == old(credentialRepository.State()).AddCredential(UserIdentity(username, username, userHandle),
                    RegisteredCredential(keyId, userHandle, publicKeyCose, signatureCount), createdAt, lastUsed)
            && session.attributes == old(session.attributes) - {SESSION_REGISTRATION_OPTIONS, SESSION_REGISTRATION_USERNAME}
            && response == Response(Ok, Json(RegisteredJson(username)))
      ensures credentialRepository.users == old(credentialRepository.users)
      ensures FiledUnderOwnHandle(old(credentialRepository.State())) ==> FiledUnderOwnHandle(credentialRepository.State())
      ensures relyingParty.RejectsKnownIds() && UniqueCredentialIds(old(credentialRepository.State())) ==>
        UniqueCredentialIds(credentialRepository.State())
      ensures relyingParty.RejectsKnownIds() && RegistrationPending(old(session.attributes)) && response.status == Ok ==>
        var username := old(session.attributes)[SESSION_REGISTRATION_USERNAME];
        credentialRepository.State().PasskeyCount(username) == old(credentialRepository.State()).PasskeyCount(username) + 1
    {
      var usernameOpt := session.GetAttribute(SESSION_REGISTRATION_USERNAME);
      var optionsOpt := session.GetAttribute(SESSION_REGISTRATION_OPTIONS);
      if usernameOpt.None? || optionsOpt.None? {
        return Response(BadRequest, Json(REGISTRATION_SESSION_EXPIRED));
      }
      var username, options := usernameOpt.value, optionsOpt.value;

      var result := relyingParty.finishRegistration(options, publicKeyCredentialJson,
                                                    credentialRepository.users, credentialRepository.credentialsByUserHandle);
      if result.RegistrationFailed? {
        return Response(BadRequest, Json(ErrorJson(result.message)));
      }

      var userHandleOpt := credentialRepository.GetUserHandleForUsername(username);
      if userHandleOpt.None? {
        return Response(InternalServerError, Json(USER_NOT_FOUND));
      }
      var userHandle := userHandleOpt.value;
      var credential := RegisteredCredential(result.keyId, userHandle, result.publicKeyCose, result.signatureCount);

      // The second lookup reads the same map as the first, so it finds the same handle.
      var identityHandle := credentialRepository.GetUserHandleForUsername(username);
      var userIdentity := UserIdentity(username, username, identityHandle.value);

      ghost var before := credentialRepository.State();
      credentialRepository.AddCredential(userIdentity, credential, createdAt, lastUsed);
      RegisteredCredentialEffect(before, userIdentity, credential, createdAt, lastUsed);

      session.RemoveAttribute(SESSION_REGISTRATION_OPTIONS);
      session.RemoveAttribute(SESSION_REGISTRATION_USERNAME);
      response := Response(Ok, Json(RegisteredJson(username)));
    }
  }
}
