/**
 * `/api/passkeys`: list, rename and delete the authenticated user's passkeys, and begin
 * adding another one. Every endpoint first reads the authenticated username from the
 * session and answers 401 without it.
 */
module PasskeyManagementController {
  import opened Wrappers
  import opened JavaText
  import opened WebAuthnTypes
  import opened CredentialQueries
  import opened Repository
  import opened RepositoryLaws
  import opened Http

  const ADD_PASSKEY_USERNAME := "add_passkey_username"

  const NAME_REQUIRED := "Name is required"
  const PASSKEY_NOT_FOUND := "Passkey not found"
  const LAST_PASSKEY := "Cannot delete the last passkey. You must have at least one passkey to access your account."
  const NAME_UPDATED := "Passkey name updated successfully"
  const PASSKEY_DELETED := "Passkey deleted successfully"

  /** The `name` entry of the rename body, when present and not empty once trimmed; the
      name passed on is its own trim, so no stored name has surrounding whitespace. */
  function RequestedName(request: map<string, string>): (r: Option<string>)
    ensures r.None? <==> "name" !in request || forall i :: 0 <= i < |request["name"]| ==> IsTrimmable(request["name"][i])
    ensures r.Some? ==> r.value == Trim(request["name"]) && r.value != []
    ensures r.Some? ==> Trim(r.value) == r.value
  {
    if "name" !in request then None
    else
      TrimEmptyIff(request["name"]);
      TrimIdempotent(request["name"]);
      if Trim(request["name"]) == [] then None else Some(Trim(request["name"]))
  }

  class PasskeyManagementController {
    const credentialRepository: InMemoryCredentialRepository

    constructor (credentialRepository: InMemoryCredentialRepository)
      ensures this.credentialRepository == credentialRepository
    {
      this.credentialRepository := credentialRepository;
    }

    /** `getUserPasskeys`: the metadata of each of the user's listed credentials, once each. */
    method GetUserPasskeys(session: Session) returns (response: Response)
      ensures SESSION_AUTHENTICATED_USER !in session.attributes ==>
        response == Response(Unauthorized, ErrorMessage(NOT_AUTHENTICATED))
      ensures SESSION_AUTHENTICATED_USER in session.attributes ==>
        var username := session.attributes[SESSION_AUTHENTICATED_USER];
        var store := credentialRepository.State();
        && response.status == Ok && response.body.PasskeyList?
        && |response.body.passkeys| == store.PasskeyCount(username)
        && (forall p :: p in response.body.passkeys <==>
              exists c :: c in store.ListedCredentials(username) && p == store.passkeyMetadata[IdString(c.credentialId)])
    {
      var authenticated := session.GetAttribute(SESSION_AUTHENTICATED_USER);
      if authenticated.None? {
        return Response(Unauthorized, ErrorMessage(NOT_AUTHENTICATED));
      }
      var passkeys, listed := credentialRepository.GetPasskeysForUser(authenticated.value);
      response := Response(Ok, PasskeyList(passkeys));
      forall p | p in passkeys
        ensures exists c :: c in credentialRepository.State().ListedCredentials(authenticated.value)
                            && p == credentialRepository.passkeyMetadata[IdString(c.credentialId)]
      {
        var i :| 0 <= i < |passkeys| && passkeys[i] == p;
        assert listed[i] in credentialRepository.State().ListedCredentials(authenticated.value);
      }
      forall c | c in credentialRepository.State().ListedCredentials(authenticated.value)
        ensures credentialRepository.passkeyMetadata[IdString(c.credentialId)] in passkeys
      {
        var i :| 0 <= i < |listed| && listed[i] == c;
        assert passkeys[i] == credentialRepository.passkeyMetadata[IdString(c.credentialId)];
      }
    }

    /** `updatePasskeyName`: renames to the trimmed name; 404 when the metadata is missing
        or the passkey is not the user's. */
    method UpdatePasskeyName(passkeyId: string, request: map<string, string>, session: Session) returns (response: Response)
      requires credentialRepository.Valid()
      modifies credentialRepository
      ensures credentialRepository.Valid()
      ensures SESSION_AUTHENTICATED_USER !in session.attributes ==>
        response == Response(Unauthorized, ErrorMessage(NOT_AUTHENTICATED)) && unchanged(credentialRepository)
      ensures SESSION_AUTHENTICATED_USER in session.attributes && RequestedName(request).None? ==>
        response == Response(BadRequest, ErrorMessage(NAME_REQUIRED)) && unchanged(credentialRepository)
      ensures SESSION_AUTHENTICATED_USER in session.attributes && RequestedName(request).Some? ==>
        var username := session.attributes[SESSION_AUTHENTICATED_USER];
        && credentialRepository.State() == old(credentialRepository.State()).RenamePasskey(username, passkeyId, RequestedName(request).value)
        && response == (if passkeyId in old(credentialRepository.passkeyMetadata) && old(credentialRepository.State()).OwnsPasskey(username, passkeyId)
                        then Response(Ok, Done(NAME_UPDATED))
                        else Response(NotFound, ErrorMessage(PASSKEY_NOT_FOUND)))
    {
      var authenticated := session.GetAttribute(SESSION_AUTHENTICATED_USER);
      if authenticated.None? {
        return Response(Unauthorized, ErrorMessage(NOT_AUTHENTICATED));
      }
      var newName := RequestedName(request);
      if newName.None? {
        return Response(BadRequest, ErrorMessage(NAME_REQUIRED));
      }
      var updated := credentialRepository.UpdatePasskeyName(authenticated.value, passkeyId, newName.value);
      if updated {
        response := Response(Ok, Done(NAME_UPDATED));
      } else {
        response := Response(NotFound, ErrorMessage(PASSKEY_NOT_FOUND));
      }
    }

    /** `deletePasskey`: refuses while the user lists at most one passkey, otherwise deletes
        it (404 when the user does not own it). With pairwise different credential ids a
        user who had a passkey keeps one. */
    method DeletePasskey(passkeyId: string, session: Session) returns (response: Response)
      requires credentialRepository.Valid()
      modifies credentialRepository
      ensures credentialRepository.Valid()
      ensures SESSION_AUTHENTICATED_USER !in session.attributes ==>
        response == Response(Unauthorized, ErrorMessage(NOT_AUTHENTICATED)) && unchanged(credentialRepository)
      ensures SESSION_AUTHENTICATED_USER in session.attributes ==>
        var username := session.attributes[SESSION_AUTHENTICATED_USER];
        if old(credentialRepository.State()).PasskeyCount(username) <= 1 then
          response == Response(BadRequest, ErrorMessage(LAST_PASSKEY)) && unchanged(credentialRepository)
        else
          && credentialRepository.State() == old(credentialRepository.State()).DeletePasskey(username, passkeyId)
          && response == (if old(credentialRepository.State()).OwnsPasskey(username, passkeyId)
                          then Response(Ok, Done(PASSKEY_DELETED))
                          else Response(NotFound, ErrorMessage(PASSKEY_NOT_FOUND)))
      ensures SESSION_AUTHENTICATED_USER in session.attributes ==>
        var username := session.attributes[SESSION_AUTHENTICATED_USER];
        DistinctIds(old(CredentialsOf(credentialRepository.users, credentialRepository.credentialsByUserHandle, username))) &&
        old(credentialRepository.State()).PasskeyCount(username) >= 1 ==>
          credentialRepository.State().PasskeyCount(username) >= 1
    {
      var authenticated := session.GetAttribute(SESSION_AUTHENTICATED_USER);
      if authenticated.None? {
        return Response(Unauthorized, ErrorMessage(NOT_AUTHENTICATED));
      }
      var username := authenticated.value;
      var userPasskeys, _ := credentialRepository.GetPasskeysForUser(username);
      if |userPasskeys| <= 1 {
        return Response(BadRequest, ErrorMessage(LAST_PASSKEY));
      }
      ghost var before := credentialRepository.State();
      var deleted := credentialRepository.DeletePasskey(username, passkeyId);
      if DistinctIds(CredentialsOf(before.users, before.credentialsByUserHandle, username)) {
        DeleteLeavesAPasskey(before, username, passkeyId);
      }
      if deleted {
        response := Response(Ok, Done(PASSKEY_DELETED));
      } else {
        response := Response(NotFound, ErrorMessage(PASSKEY_NOT_FOUND));
      }
    }

    /** `startAddPasskey`: records the authenticated username under its own key. */
    method StartAddPasskey(session: Session) returns (response: Response)
      modifies session
      ensures session.invalidated == old(session.invalidated)
      ensures SESSION_AUTHENTICATED_USER !in old(session.attributes) ==>
        response == Response(Unauthorized, ErrorMessage(NOT_AUTHENTICATED)) && session.attributes == old(session.attributes)
      ensures SESSION_AUTHENTICATED_USER in old(session.attributes) ==>
        var username := old(session.attributes)[SESSION_AUTHENTICATED_USER];
        response == Response(Ok, AddPasskeyStarted(username))
        && session.attributes == old(session.attributes)[ADD_PASSKEY_USERNAME := username]
    {
      var authenticated := session.GetAttribute(SESSION_AUTHENTICATED_USER);
      if authenticated.None? {
        return Response(Unauthorized, ErrorMessage(NOT_AUTHENTICATED));
      }
      session.SetAttribute(ADD_PASSKEY_USERNAME, authenticated.value);
      response := Response(Ok, AddPasskeyStarted(authenticated.value));
    }
  }
}
