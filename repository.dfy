/**
 * The credential repository of the passkey backend: five concurrent hash maps (usernames to
 * identities, user handles to credential sets, credential ids to usernames, id strings to
 * passkey metadata, usernames to a per-user passkey counter) that the controllers share.
 *
 * `StoreState` is the value of the five maps, with one specification function per
 * operation; `InMemoryCredentialRepository` is the object whose methods update the maps in
 * place and are proved to produce exactly those values.
 */
module Repository {
  import opened Wrappers
  import opened WebAuthnTypes
  import opened CredentialQueries

  datatype StoreState = StoreState(
    users: Users,
    credentialsByUserHandle: CredentialSets,
    credentialIdToUsername: map<Bytes, string>,
    passkeyMetadata: map<string, PasskeyInfo>,
    userPasskeyCounters: map<string, int>)
  {
    /** What every operation keeps: identities stored under their own names, metadata
        stored under its own id string, counters within the range of a Java `int`. */
    ghost predicate Valid() {
      && NamesMatchKeys(users)
      && (forall k :: k in passkeyMetadata ==> passkeyMetadata[k].id == k)
      && (forall u :: u in userPasskeyCounters ==> IsInt(userPasskeyCounters[u]))
    }

    /** `userPasskeyCounters.getOrDefault(username, 0)`. */
    function CounterOf(username: string): int {
      if username in userPasskeyCounters then userPasskeyCounters[username] else 0
    }

    /** `createUser`: overwrites the identity, gives the handle a fresh empty set and resets
        the user's counter to 0. */
    function CreateUser(username: string, displayName: string, userHandle: Bytes): (s: StoreState)
      ensures Valid() ==> s.Valid()
    {
      this.(users := users[username := UserIdentity(username, displayName, userHandle)],
            credentialsByUserHandle := credentialsByUserHandle[userHandle := {}],
            userPasskeyCounters := userPasskeyCounters[username := 0])
    }

    /** `addCredential`: adds the credential to the set of `user.id` (creating it when
        absent), maps its id to `user.name`, bumps the user's counter and records metadata
        named after the new counter under the id's base64url string. */
    function AddCredential(user: UserIdentity, credential: RegisteredCredential,
                           createdAt: Timestamp, lastUsed: Timestamp): (s: StoreState)
      ensures Valid() ==> s.Valid()
    {
      var counter := IntSucc(CounterOf(user.name));
      var idString := IdString(credential.credentialId);
      var existing := if user.id in credentialsByUserHandle then credentialsByUserHandle[user.id] else {};
      StoreState(
        users,
        credentialsByUserHandle[user.id := existing + {credential}],
        credentialIdToUsername[credential.credentialId := user.name],
        passkeyMetadata[idString := PasskeyInfo(idString, PasskeyName(counter), createdAt, lastUsed)],
        userPasskeyCounters[user.name := counter])
    }

    /** The ownership check of `updatePasskeyName` and the match of `deletePasskey`: the
        username has a handle, the handle has a set, and a credential of that set has
        `passkeyId` as its base64url id. */
    predicate OwnsPasskey(username: string, passkeyId: string) {
      && username in users
      && users[username].id in credentialsByUserHandle
      && exists c :: c in credentialsByUserHandle[users[username].id] && IdString(c.credentialId) == passkeyId
    }

    /** `updatePasskeyName`: renames when the metadata exists and the user owns the
        passkey; otherwise nothing changes. */
    function RenamePasskey(username: string, passkeyId: string, newName: string): (s: StoreState)
      ensures Valid() ==> s.Valid()
    {
      if passkeyId in passkeyMetadata && OwnsPasskey(username, passkeyId) then
        this.(passkeyMetadata := passkeyMetadata[passkeyId := passkeyMetadata[passkeyId].(name := newName)])
      else
        this
    }

    /** `deletePasskey`: when the user owns the passkey, drops every credential of the
        user's set with that id string, its metadata, and every id-to-username entry whose
        key has that id string; the counters are left alone. */
    function DeletePasskey(username: string, passkeyId: string): (s: StoreState)
      ensures Valid() ==> s.Valid()
    {
      if OwnsPasskey(username, passkeyId) then
        var h := users[username].id;
        this.(credentialsByUserHandle :=
                credentialsByUserHandle[h := set c | c in credentialsByUserHandle[h] && IdString(c.credentialId) != passkeyId],
              passkeyMetadata := passkeyMetadata - {passkeyId},
              credentialIdToUsername :=
                map k | k in credentialIdToUsername && IdString(k) != passkeyId :: credentialIdToUsername[k])
      else
        this
    }

    /** The credentials `getPasskeysForUser` reports: the user's credentials that have metadata. */
    function ListedCredentials(username: string): set<RegisteredCredential> {
      set c | c in CredentialsOf(users, credentialsByUserHandle, username) && IdString(c.credentialId) in passkeyMetadata
    }

    /** `getPasskeyCountForUser`. */
    function PasskeyCount(username: string): nat {
      |ListedCredentials(username)|
    }
  }

  const EmptyStore := StoreState(map[], map[], map[], map[], map[])

  class InMemoryCredentialRepository {
    var users: Users
    var credentialsByUserHandle: CredentialSets
    var credentialIdToUsername: map<Bytes, string>
    var passkeyMetadata: map<string, PasskeyInfo>
    var userPasskeyCounters: map<string, int>

    ghost function State(): StoreState
      reads this
    {
      StoreState(users, credentialsByUserHandle, credentialIdToUsername, passkeyMetadata, userPasskeyCounters)
    }

    ghost predicate Valid()
      reads this
    {
      State().Valid()
    }

    constructor ()
      ensures State() == EmptyStore && Valid()
    {
      users := map[];
      credentialsByUserHandle := map[];
      credentialIdToUsername := map[];
      passkeyMetadata := map[];
      userPasskeyCounters := map[];
    }

    /** `getUserHandleForUsername`: the handle of the identity stored under the username;
        that handle leads back to the username. */
    function GetUserHandleForUsername(username: string): (r: Option<Bytes>)
      requires Valid()
      reads this
      ensures r == UserHandleFor(users, username)
      ensures r.Some? ==> username in NamesWithHandle(users, r.value)
    {
      if username in users then Some(users[username].id) else None
    }

    /** `getUsernameForUserHandle`: the name of some identity with that handle, whose own
        handle lookup gives the handle back; None exactly when no identity has it. */
    method GetUsernameForUserHandle(userHandle: Bytes) returns (r: Option<string>)
      requires Valid()
      ensures r.Some? ==> r.value in NamesWithHandle(users, userHandle)
      ensures r.Some? ==> UserHandleFor(users, r.value) == Some(userHandle)
      ensures r.None? <==> NamesWithHandle(users, userHandle) == {}
    {
      r := FindUsernameForHandle(users, userHandle);
    }

    /** `lookup`: a credential with that id from that handle's set. */
    method Lookup(credentialId: Bytes, userHandle: Bytes) returns (r: Option<RegisteredCredential>)
      ensures r.Some? ==> userHandle in credentialsByUserHandle && r.value in credentialsByUserHandle[userHandle]
      ensures r.Some? ==> r.value.credentialId == credentialId
      ensures r.None? <==> userHandle !in credentialsByUserHandle || !HasCredential(credentialsByUserHandle[userHandle], credentialId)
    {
      r := CredentialQueries.Lookup(credentialsByUserHandle, credentialId, userHandle);
    }

    /** `lookupAll`: every stored credential with that id, whoever holds it. */
    function LookupAll(credentialId: Bytes): (r: set<RegisteredCredential>)
      reads this
      ensures forall c :: c in r <==>
        (c.credentialId == credentialId && exists h :: h in credentialsByUserHandle && c in credentialsByUserHandle[h])
    {
      CredentialQueries.LookupAll(credentialsByUserHandle, credentialId)
    }

    /** `getCredentialIdsForUsername`: the ids of the user's credentials. */
    function GetCredentialIdsForUsername(username: string): (r: set<Bytes>)
      reads this
      ensures forall id :: id in r <==> HasCredential(CredentialsOf(users, credentialsByUserHandle, username), id)
      ensures username !in users ==> r == {}
    {
      CredentialIdsFor(users, credentialsByUserHandle, username)
    }

    /** `userExists`: the username is a key of the identity map, which is exactly when
        `getUserHandleForUsername` finds a handle. */
    function UserExists(username: string): (b: bool)
      reads this
      ensures b <==> UserHandleFor(users, username).Some?
    {
      username in users
    }

    /** `getUserByUsername`: the identity stored for the username, which carries that name
        and the handle `getUserHandleForUsername` reports. */
    function GetUserByUsername(username: string): (r: Option<UserIdentity>)
      requires Valid()
      reads this
      ensures r.Some? <==> UserExists(username)
      ensures r.Some? ==> r.value.name == username && UserHandleFor(users, username) == Some(r.value.id)
    {
      if username in users then Some(users[username]) else None
    }

    method CreateUser(username: string, displayName: string, userHandle: Bytes) returns (identity: UserIdentity)
      requires Valid()
      modifies this
      ensures Valid()
      ensures identity == UserIdentity(username, displayName, userHandle)
      ensures State() == old(State()).CreateUser(username, displayName, userHandle)
    {
      identity := UserIdentity(username, displayName, userHandle);
      users := users[username := identity];
      credentialsByUserHandle := credentialsByUserHandle[userHandle := {}];
      userPasskeyCounters := userPasskeyCounters[username := 0];
    }

    method AddCredential(user: UserIdentity, credential: RegisteredCredential, createdAt: Timestamp, lastUsed: Timestamp)
      requires Valid()
      modifies this
      ensures Valid()
      ensures State() == old(State()).AddCredential(user, credential, createdAt, lastUsed)
    {
      var credentials := if user.id in credentialsByUserHandle then credentialsByUserHandle[user.id] else {};
      credentialsByUserHandle := credentialsByUserHandle[user.id := credentials + {credential}];
      credentialIdToUsername := credentialIdToUsername[credential.credentialId := user.name];

      var username := user.name;
      var counter := IntSucc(if username in userPasskeyCounters then userPasskeyCounters[username] else 0);
      userPasskeyCounters := userPasskeyCounters[username := counter];

      var credentialIdStr := IdString(credential.credentialId);
      var passkeyInfo := PasskeyInfo(credentialIdStr, PasskeyName(counter), createdAt, lastUsed);
      passkeyMetadata := passkeyMetadata[credentialIdStr := passkeyInfo];
    }

    /** `updateSignatureCount`: finds a credential with the id in that handle's set and
        swaps it for a copy with the new count; no check that the count grows. */
    method UpdateSignatureCount(userHandle: Bytes, credentialId: Bytes, newSignatureCount: int)
      requires Valid()
      modifies this
      ensures Valid()
      ensures SignatureCountUpdated(old(credentialsByUserHandle), credentialsByUserHandle,
                                    userHandle, credentialId, newSignatureCount)
      ensures State() == old(State()).(credentialsByUserHandle := credentialsByUserHandle)
    {
      if userHandle in credentialsByUserHandle {
        var credentials := credentialsByUserHandle[userHandle];
        var credentialToUpdate := FindCredential(credentials, credentialId);
        if credentialToUpdate.Some? {
          var updatedCredential := WithCount(credentialToUpdate.value, newSignatureCount);
          credentialsByUserHandle :=
            credentialsByUserHandle[userHandle := credentials - {credentialToUpdate.value} + {updatedCredential}];
        }
      }
    }

    /** `getPasskeysForUser`: one metadata entry per credential of the user that has
        metadata, in the set's (unspecified) iteration order; `listed` is that order. */
    method GetPasskeysForUser(username: string) returns (passkeys: seq<PasskeyInfo>, ghost listed: seq<RegisteredCredential>)
      ensures |passkeys| == |listed| == State().PasskeyCount(username)
      ensures Distinct(listed)
      ensures forall c :: c in listed <==> c in State().ListedCredentials(username)
      ensures forall i :: 0 <= i < |listed| ==>
        IdString(listed[i].credentialId) in passkeyMetadata && passkeys[i] == passkeyMetadata[IdString(listed[i].credentialId)]
      ensures username !in users ==> passkeys == []
    {
      passkeys, listed := [], [];
      var credentials := CredentialsOf(users, credentialsByUserHandle, username);
      var rest := credentials;
      while rest != {}
        invariant rest <= credentials
        invariant |passkeys| == |listed|
        invariant Distinct(listed)
        invariant forall i :: 0 <= i < |listed| ==> listed[i] in credentials && listed[i] !in rest
        invariant forall i :: 0 <= i < |listed| ==>
          IdString(listed[i].credentialId) in passkeyMetadata && passkeys[i] == passkeyMetadata[IdString(listed[i].credentialId)]
        invariant forall c :: c in credentials && c !in rest && IdString(c.credentialId) in passkeyMetadata ==> c in listed
        decreases rest
      {
        var c :| c in rest;
        var info := IdString(c.credentialId);
        if info in passkeyMetadata {
          passkeys := passkeys + [passkeyMetadata[info]];
          listed := listed + [c];
        }
        rest := rest - {c};
      }
      DistinctLength(listed, State().ListedCredentials(username));
    }

    /** `getPasskeyCountForUser`: the length of `getPasskeysForUser`. */
    method GetPasskeyCountForUser(username: string) returns (count: int)
      ensures count == State().PasskeyCount(username)
      ensures username !in users ==> count == 0
    {
      var passkeys, _ := GetPasskeysForUser(username);
      count := |passkeys|;
    }

    method UpdatePasskeyName(username: string, passkeyId: string, newName: string) returns (updated: bool)
      requires Valid()
      modifies this
      ensures Valid()
      ensures updated <==> passkeyId in old(passkeyMetadata) && old(State()).OwnsPasskey(username, passkeyId)
      ensures State() == old(State()).RenamePasskey(username, passkeyId, newName)
    {
      updated := false;
      if passkeyId in passkeyMetadata {
        var info := passkeyMetadata[passkeyId];
        var userHandleOpt := UserHandleFor(users, username);
        if userHandleOpt.Some? {
          if userHandleOpt.value in credentialsByUserHandle
             && exists cred :: cred in credentialsByUserHandle[userHandleOpt.value] && IdString(cred.credentialId) == passkeyId
          {
            passkeyMetadata := passkeyMetadata[passkeyId := info.(name := newName)];
            updated := true;
          }
        }
      }
    }

    method DeletePasskey(username: string, passkeyId: string) returns (removed: bool)
      requires Valid()
      modifies this
      ensures Valid()
      ensures removed <==> old(State()).OwnsPasskey(username, passkeyId)
      ensures State() == old(State()).DeletePasskey(username, passkeyId)
    {
      removed := false;
      var userHandleOpt := UserHandleFor(users, username);
      if userHandleOpt.Some? && userHandleOpt.value in credentialsByUserHandle {
        var h := userHandleOpt.value;
        var credentials := credentialsByUserHandle[h];
        var kept := set c | c in credentials && IdString(c.credentialId) != passkeyId;
        if kept != credentials {
          credentialsByUserHandle := credentialsByUserHandle[h := kept];
          removed := true;
          passkeyMetadata := passkeyMetadata - {passkeyId};
          credentialIdToUsername :=
            map k | k in credentialIdToUsername && IdString(k) != passkeyId :: credentialIdToUsername[k];
        } else {
          assert !old(State()).OwnsPasskey(username, passkeyId);
        }
      }
    }
  }
}
