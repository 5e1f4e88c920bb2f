/**
 * `/api/user`: the authenticated user's profile, logout, and the authentication status.
 */
module UserProfileController {
  import opened Wrappers
  import opened JavaText
  import opened WebAuthnTypes
  import opened Repository
  import opened Http

  const USER_NOT_FOUND := "User not found"
  const LOGGED_OUT := "Logged out successfully"

  class UserProfileController {
    const credentialRepository: InMemoryCredentialRepository

    constructor (credentialRepository: InMemoryCredentialRepository)
      ensures this.credentialRepository == credentialRepository
    {
      this.credentialRepository := credentialRepository;
    }

    /** `getUserProfile`: the stored identity's name (also as e-mail) and display name. A
        username that is missing or trims to nothing gives 401; one the repository does
        not know is dropped from the session. */
    method GetUserProfile(session: Session) returns (response: Response)
      requires credentialRepository.Valid()
      modifies session
      ensures session.invalidated == old(session.invalidated)
      ensures SESSION_AUTHENTICATED_USER !in old(session.attributes) || Trim(old(session.attributes)[SESSION_AUTHENTICATED_USER]) == [] ==>
        response == Response(Unauthorized, ErrorMessage(NOT_AUTHENTICATED)) && session.attributes == old(session.attributes)
      ensures SESSION_AUTHENTICATED_USER in old(session.attributes) && Trim(old(session.attributes)[SESSION_AUTHENTICATED_USER]) != [] ==>
        var username := old(session.attributes)[SESSION_AUTHENTICATED_USER];
        if username in credentialRepository.users then
          && response == Response(Ok, ProfileData(username, credentialRepository.users[username].displayName, username))
          && session.attributes == old(session.attributes)
        else
          && response == Response(Unauthorized, ErrorMessage(USER_NOT_FOUND))
          && session.attributes == old(session.attributes) - {SESSION_AUTHENTICATED_USER}
    {
      var authenticated := session.GetAttribute(SESSION_AUTHENTICATED_USER);
      if authenticated.None? || Trim(authenticated.value) == [] {
        return Response(Unauthorized, ErrorMessage(NOT_AUTHENTICATED));
      }
      var userIdentityOpt := credentialRepository.GetUserByUsername(authenticated.value);
      if userIdentityOpt.None? {
        session.RemoveAttribute(SESSION_AUTHENTICATED_USER);
        return Response(Unauthorized, ErrorMessage(USER_NOT_FOUND));
      }
      var userIdentity := userIdentityOpt.value;
      response := Response(Ok, ProfileData(userIdentity.name, userIdentity.displayName, userIdentity.name));
    }

    /** `logout`: drops the authenticated username and invalidates the session; always 200. */
    method Logout(session: Session) returns (response: Response)
      modifies session
      ensures session.attributes == map[] && session.invalidated
      ensures response == Response(Ok, Done(LOGGED_OUT))
    {
      var authenticated := session.GetAttribute(SESSION_AUTHENTICATED_USER);
      if authenticated.Some? {
        session.RemoveAttribute(SESSION_AUTHENTICATED_USER);
      }
      session.Invalidate();
      response := Response(Ok, Done(LOGGED_OUT));
    }

    /** `getAuthStatus`: 200 with the username while it names a stored user; otherwise
        401, dropping a stale username from the session. */
    method GetAuthStatus(session: Session) returns (response: Response)
      modifies session
      ensures session.invalidated == old(session.invalidated)
      ensures SESSION_AUTHENTICATED_USER in old(session.attributes) &&
              credentialRepository.UserExists(old(session.attributes)[SESSION_AUTHENTICATED_USER]) ==>
        && response == Response(Ok, AuthStatus(old(session.attributes)[SESSION_AUTHENTICATED_USER]))
        && session.attributes == old(session.attributes)
      ensures !(SESSION_AUTHENTICATED_USER in old(session.attributes) &&
                credentialRepository.UserExists(old(session.attributes)[SESSION_AUTHENTICATED_USER])) ==>
        && response == Response(Unauthorized, NotAuthenticatedStatus)
        && session.attributes == old(session.attributes) - {SESSION_AUTHENTICATED_USER}
    {
      var authenticated := session.GetAttribute(SESSION_AUTHENTICATED_USER);
      if authenticated.Some? && credentialRepository.UserExists(authenticated.value) {
        return Response(Ok, AuthStatus(authenticated.value));
      }
      if authenticated.Some? {
        session.RemoveAttribute(SESSION_AUTHENTICATED_USER);
      }
      response := Response(Unauthorized, NotAuthenticatedStatus);
    }
  }
}
