/**
 * `POST /webauthn/authentication/start` and `/finish`. Start asks the relying party for an
 * assertion request (for a named user, or for a discoverable credential when no usable
 * username is given) and parks it in the session; finish consumes the parked request,
 * has the relying party verify the browser's assertion and, on success, stores the new
 * signature count and records the username as authenticated.
 */
module AuthenticationController {
  import opened Wrappers
  import opened JavaText
  import opened WebAuthnTypes
  import opened CredentialQueries
  import opened Repository
  import opened RepositoryLaws
  import opened Http
  import opened RelyingPartyOracle

  const SESSION_AUTHENTICATION_REQUEST := "webauthn_authentication_request"

  const AUTHENTICATION_TIMED_OUT := "{\"error\":\"Authentication timed out or session expired. Please try again.\"}"
  const AUTHENTICATION_FAILED := "{\"success\":false, \"error\":\"Authentication failed. Invalid credentials.\"}"
  const UNEXPECTED_ERROR := "{\"success\":false, \"error\":\"An unexpected error occurred during authentication.\"}"

  function AuthenticatedJson(username: string): string {
    "{\"success\":true, \"username\":\"" + username + "\"}"
  }

  /** Exception messages are embedded with double quotes turned into single quotes. */
  function InternalErrorJson(message: string): string {
    "{\"error\":\"An internal error occurred: " + Replace(message, '"', '\'') + "\"}"
  }

  function AssertionFailedJson(message: string): string {
    "{\"success\":false, \"error\":\"Assertion failed: " + Replace(message, '"', '\'') + "\"}"
  }

  /** The optional request body; a missing field is Java's `null`. */
  datatype AuthenticationRequest = AuthenticationRequest(username: Option<string>)

  /** The username the assertion request is built for: present only when the body names a
      user that is not blank. */
  function RequestedUsername(request: Option<AuthenticationRequest>): (r: Option<string>)
    ensures r.Some? <==> request.Some? && request.value.username.Some? && !IsBlank(request.value.username.value)
    ensures r.Some? ==> r == request.value.username
  {
    if request.Some? && request.value.username.Some? && !IsBlank(request.value.username.value)
    then request.value.username else None
  }

  class WebAuthnAuthenticationController {
    const relyingParty: RelyingParty
    const credentialRepository: InMemoryCredentialRepository

    constructor (relyingParty: RelyingParty, credentialRepository: InMemoryCredentialRepository)
      ensures this.relyingParty == relyingParty && this.credentialRepository == credentialRepository
    {
      this.relyingParty := relyingParty;
      this.credentialRepository := credentialRepository;
    }

    /** `startAuthentication`: leaves the repository alone (an unknown username is only
        logged) and, once the relying party has built a request, replaces any parked one
        with it; serialising it for the browser comes after that, so a failure there answers
        500 with the new request already parked. */
    method StartAuthentication(request: Option<AuthenticationRequest>, session: Session) returns (response: Response)
      modifies session
      ensures session.invalidated == old(session.invalidated)
      ensures
        match relyingParty.startAssertion(RequestedUsername(request), credentialRepository.users, credentialRepository.credentialsByUserHandle)
        case AssertionOptions(json, getJson) =>
          && response == Response(Ok, Json(getJson))
          && session.attributes == old(session.attributes)[SESSION_AUTHENTICATION_REQUEST := json]
        case GetJsonFailed(json, message) =>
          && response == Response(InternalServerError, Json(InternalErrorJson(message)))
          && session.attributes == old(session.attributes)[SESSION_AUTHENTICATION_REQUEST := json]
        case AssertionStartFailed(message) =>
          && response == Response(InternalServerError, Json(InternalErrorJson(message)))
          && session.attributes == old(session.attributes)
    {
      var username := RequestedUsername(request);
      var assertionRequest := relyingParty.startAssertion(username, credentialRepository.users, credentialRepository.credentialsByUserHandle);
      match assertionRequest
      case AssertionStartFailed(message) =>
        response := Response(InternalServerError, Json(InternalErrorJson(message)));
      case AssertionOptions(json, getJson) =>
        session.SetAttribute(SESSION_AUTHENTICATION_REQUEST, json);
        response := Response(Ok, Json(getJson));
      case GetJsonFailed(json, message) =>
        session.SetAttribute(SESSION_AUTHENTICATION_REQUEST, json);
        response := Response(InternalServerError, Json(InternalErrorJson(message)));
    }

    /** `finishAuthentication`: the parked request is removed before verification, so each
        one serves at most one attempt. Only a successful assertion touches the repository
        (the signature count, stored without comparing it to the old one) and the
        authenticated username. */
    method FinishAuthentication(publicKeyCredentialJson: string, session: Session) returns (response: Response)
      requires credentialRepository.Valid()
      modifies credentialRepository, session
      ensures credentialRepository.Valid()
      ensures credentialRepository.users == old(credentialRepository.users)
      ensures session.invalidated == old(session.invalidated)
      ensures SESSION_AUTHENTICATION_REQUEST !in old(session.attributes) ==>
        response == Response(BadRequest, Json(AUTHENTICATION_TIMED_OUT)) && unchanged(credentialRepository, session)
      ensures SESSION_AUTHENTICATION_REQUEST in old(session.attributes) ==>
        var consumed := old(session.attributes) - {SESSION_AUTHENTICATION_REQUEST};
        match relyingParty.finishAssertion(old(session.attributes)[SESSION_AUTHENTICATION_REQUEST], publicKeyCredentialJson,
                                           old(credentialRepository.users), old(credentialRepository.credentialsByUserHandle))
        case AssertionSucceeded(userHandle, credentialId, signatureCount, username) =>
          && SignatureCountUpdated(old(credentialRepository.credentialsByUserHandle), credentialRepository.credentialsByUserHandle,
                                   userHandle, credentialId, signatureCount)
          && credentialRepository.State()
             == old(credentialRepository.State()).(credentialsByUserHandle := credentialRepository.credentialsByUserHandle)
          && session.attributes == consumed[SESSION_AUTHENTICATED_USER := username]
          && response == Response(Ok, Json(AuthenticatedJson(username)))
        case AssertionNotSuccessful(_) =>
          && response == Response(Unauthorized, Json(AUTHENTICATION_FAILED))
          && unchanged(credentialRepository) && session.attributes == consumed
        case AssertionFailed(message) =>
          && response == Response(Unauthorized, Json(AssertionFailedJson(message)))
          && unchanged(credentialRepository) && session.attributes == consumed
        case AssertionError =>
          && response == Response(InternalServerError, Json(UNEXPECTED_ERROR))
          && unchanged(credentialRepository) && session.attributes == consumed
      ensures SESSION_AUTHENTICATION_REQUEST !in session.attributes
      ensures relyingParty.ResolvesStoredCredential() && response.status == Ok ==>
        SESSION_AUTHENTICATED_USER in session.attributes && session.attributes[SESSION_AUTHENTICATED_USER] in credentialRepository.users
      ensures FiledUnderOwnHandle(old(credentialRepository.State())) ==> FiledUnderOwnHandle(credentialRepository.State())
      ensures UniqueCredentialIds(old(credentialRepository.State())) ==> UniqueCredentialIds(credentialRepository.State())
    {
      var assertionRequestOpt := session.GetAttribute(SESSION_AUTHENTICATION_REQUEST);
      if assertionRequestOpt.None? {
        return Response(BadRequest, Json(AUTHENTICATION_TIMED_OUT));
      }
      session.RemoveAttribute(SESSION_AUTHENTICATION_REQUEST);

      ghost var before := credentialRepository.State();
      var result := relyingParty.finishAssertion(assertionRequestOpt.value, publicKeyCredentialJson,
                                                 credentialRepository.users, credentialRepository.credentialsByUserHandle);
      match result
      case AssertionSucceeded(userHandle, credentialId, signatureCount, username) =>
        credentialRepository.UpdateSignatureCount(userHandle, credentialId, signatureCount);
        if FiledUnderOwnHandle(before) {
          FilingPreservedBySignatureUpdate(before, credentialRepository.State(), userHandle, credentialId, signatureCount);
        }
        if UniqueCredentialIds(before) {
          UniqueIdsPreservedBySignatureUpdate(before, credentialRepository.State(), userHandle, credentialId, signatureCount);
        }
        session.SetAttribute(SESSION_AUTHENTICATED_USER, username);
        response := Response(Ok, Json(AuthenticatedJson(username)));
      case AssertionNotSuccessful(_) =>
        response := Response(Unauthorized, Json(AUTHENTICATION_FAILED));
      case AssertionFailed(message) =>
        response := Response(Unauthorized, Json(AssertionFailedJson(message)));
      case AssertionError =>
        response := Response(InternalServerError, Json(UNEXPECTED_ERROR));
    }
  }
}
