/**
 * The older in-memory store in the root package: the same identity map, credential sets
 * and id-to-username map as the repository package's store, without passkey metadata or
 * counters. Its queries are the shared ones of `CredentialQueries`; only the handle lookup
 * is written as an explicit walk over the identity map.
 */
module LegacyRepository {
  import opened Wrappers
  import opened WebAuthnTypes
  import opened CredentialQueries

  class InMemoryCredentialRepository {
    var users: Users
    var credentialsByUserHandle: CredentialSets
    var credentialIdToUsername: map<Bytes, string>

    /** Every identity sits under its own name. */
    ghost predicate Valid()
      reads this
    {
      NamesMatchKeys(users)
    }

    constructor ()
      ensures Valid()
      ensures users == map[] && credentialsByUserHandle == map[] && credentialIdToUsername == map[]
    {
      users := map[];
      credentialsByUserHandle := map[];
      credentialIdToUsername := map[];
    }

    /** `getCredentialIdsForUsername`: the ids of the user's credentials. */
    function GetCredentialIdsForUsername(username: string): (r: set<Bytes>)
      reads this
      ensures forall id :: id in r <==> HasCredential(CredentialsOf(users, credentialsByUserHandle, username), id)
      ensures username !in users ==> r == {}
    {
      CredentialIdsFor(users, credentialsByUserHandle, username)
    }

    /** `getUserHandleForUsername`: walks the entries until the key equals the username;
        the handle found is that of the identity the shared query reports. */
    method GetUserHandleForUsername(username: string) returns (r: Option<Bytes>)
      ensures r == UserHandleFor(users, username)
      ensures r.Some? <==> username in users
    {
      var rest := users.Keys;
      while rest != {}
        invariant rest <= users.Keys
        invariant username in users ==> username in rest
        decreases rest
      {
        var key :| key in rest;
        if key == username {
          return Some(users[key].id);
        }
        rest := rest - {key};
      }
      return None;
    }

    /** `getUsernameForUserHandle`: the name of some identity with that handle; None exactly
        when no identity has it. */
    method GetUsernameForUserHandle(userHandle: Bytes) returns (r: Option<string>)
      requires Valid()
      ensures r.Some? ==> r.value in NamesWithHandle(users, userHandle)
      ensures r.Some? ==> UserHandleFor(users, r.value) == Some(userHandle)
      ensures r.None? <==> NamesWithHandle(users, userHandle) == {}
    {
      r := FindUsernameForHandle(users, userHandle);
    }

    /** `lookup`: a credential with that id from that handle's set. */
    method Lookup(credentialId: Bytes, userHandle: Bytes) returns (r: Option<RegisteredCredential>)
      ensures r.Some? ==> userHandle in credentialsByUserHandle && r.value in credentialsByUserHandle[userHandle]
      ensures r.Some? ==> r.value.credentialId == credentialId
      ensures r.None? <==> userHandle !in credentialsByUserHandle || !HasCredential(credentialsByUserHandle[userHandle], credentialId)
    {
      r := CredentialQueries.Lookup(credentialsByUserHandle, credentialId, userHandle);
    }

    /** `lookupAll`: every stored credential with that id. */
    function LookupAll(credentialId: Bytes): (r: set<RegisteredCredential>)
      reads this
      ensures forall c :: c in r <==>
        (c.credentialId == credentialId && exists h :: h in credentialsByUserHandle && c in credentialsByUserHandle[h])
    {
      CredentialQueries.LookupAll(credentialsByUserHandle, credentialId)
    }

    /** `createUser`: stores (or replaces) the identity and gives the handle a fresh empty
        credential set. */
    method CreateUser(username: string, displayName: string, userHandle: Bytes) returns (identity: UserIdentity)
      requires Valid()
      modifies this
      ensures Valid()
      ensures identity == UserIdentity(username, displayName, userHandle)
      ensures users == old(users)[username := identity]
      ensures credentialsByUserHandle == old(credentialsByUserHandle)[userHandle := {}]
      ensures credentialIdToUsername == old(credentialIdToUsername)
    {
      identity := UserIdentity(username, displayName, userHandle);
      users := users[username := identity];
      credentialsByUserHandle := credentialsByUserHandle[userHandle := {}];
    }

    /** `addCredential`: adds the credential to the set under the user's handle (creating
        the set when absent) and maps its id to the user's name. */
    method AddCredential(user: UserIdentity, credential: RegisteredCredential)
      modifies this
      ensures users == old(users)
      ensures user.id in credentialsByUserHandle
      ensures credentialsByUserHandle[user.id]
              == (if user.id in old(credentialsByUserHandle) then old(credentialsByUserHandle)[user.id] else {}) + {credential}
      ensures forall h :: h != user.id ==> (h in credentialsByUserHandle <==> h in old(credentialsByUserHandle))
      ensures forall h :: h != user.id && h in credentialsByUserHandle ==> credentialsByUserHandle[h] == old(credentialsByUserHandle)[h]
      ensures credentialIdToUsername == old(credentialIdToUsername)[credential.credentialId := user.name]
    {
      var credentials := if user.id in credentialsByUserHandle then credentialsByUserHandle[user.id] else {};
      credentialsByUserHandle := credentialsByUserHandle[user.id := credentials + {credential}];
      credentialIdToUsername := credentialIdToUsername[credential.credentialId := user.name];
    }

    /** `updateSignatureCount`: the same swap as in the repository package's store. */
    method UpdateSignatureCount(userHandle: Bytes, credentialId: Bytes, newSignatureCount: int)
      modifies this
      ensures SignatureCountUpdated(old(credentialsByUserHandle), credentialsByUserHandle,
                                    userHandle, credentialId, newSignatureCount)
      ensures users == old(users) && credentialIdToUsername == old(credentialIdToUsername)
    {
      if userHandle in credentialsByUserHandle {
        var credentials := credentialsByUserHandle[userHandle];
        var credentialToUpdate := FindCredential(credentials, credentialId);
        if credentialToUpdate.Some? {
          var updatedCredential := WithCount(credentialToUpdate.value, newSignatureCount);
          credentialsByUserHandle :=
            credentialsByUserHandle[userHandle := credentials - {credentialToUpdate.value} + {updatedCredential}];
        }
      }
    }
  }
}
