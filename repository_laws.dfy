/**
 * Properties of the repository's operations, stated over `StoreState`: what adding and
 * deleting does to a user's passkey list, that passkey ordinals are never handed out twice,
 * that a rename cannot reach another user's passkey, and that credentials stay filed under
 * their own user handle.
 */
module RepositoryLaws {
  import opened Wrappers
  import opened WebAuthnTypes
  import opened CredentialQueries
  import opened Repository

  // ------------------------------------------------------------------ adding a credential

  /** `createUser` on a name that already exists replaces it: the user starts again with
      no passkeys and a zero counter. */
  lemma CreateUserStartsOver(s: StoreState, username: string, displayName: string, userHandle: Bytes)
    ensures var s' := s.CreateUser(username, displayName, userHandle);
      && s'.users[username] == UserIdentity(username, displayName, userHandle)
      && CredentialsOf(s'.users, s'.credentialsByUserHandle, username) == {}
      && s'.PasskeyCount(username) == 0
      && s'.CounterOf(username) == 0
  {
    var s' := s.CreateUser(username, displayName, userHandle);
    assert UserHandleFor(s'.users, username) == Some(userHandle);
    assert s'.ListedCredentials(username) == {};
  }

  /** After `addCredential` for a stored user the credential is in the user's set and is
      listed, its id maps to the username, the counter is one more than before (from 0
      when absent, wrapping like a Java `int`) and the metadata under the id string is
      named after the new counter. */
  lemma AddCredentialEffect(s: StoreState, user: UserIdentity, credential: RegisteredCredential,
                            createdAt: Timestamp, lastUsed: Timestamp)
    requires s.Valid()
    requires UserHandleFor(s.users, user.name) == Some(user.id)
    ensures var s' := s.AddCredential(user, credential, createdAt, lastUsed);
      && credential in CredentialsOf(s'.users, s'.credentialsByUserHandle, user.name)
      && credential in s'.ListedCredentials(user.name)
      && s'.credentialIdToUsername[credential.credentialId] == user.name
      && s'.CounterOf(user.name) == (if s.CounterOf(user.name) == INT_MAX then INT_MIN else s.CounterOf(user.name) + 1)
      && s'.passkeyMetadata[IdString(credential.credentialId)]
         == PasskeyInfo(IdString(credential.credentialId), PasskeyName(s'.CounterOf(user.name)), createdAt, lastUsed)
  {
    assert IsInt(s.CounterOf(user.name));
  }

  /** Every credential of the user has metadata. */
  predicate AllListed(s: StoreState, username: string) {
    forall c :: c in CredentialsOf(s.users, s.credentialsByUserHandle, username) ==> IdString(c.credentialId) in s.passkeyMetadata
  }

  /** The user's list after `addCredential` of an id the user does not hold: the old list
      plus the new credential, because id strings identify ids. */
  lemma ListedAfterAdd(s: StoreState, user: UserIdentity, credential: RegisteredCredential,
                       createdAt: Timestamp, lastUsed: Timestamp)
    requires UserHandleFor(s.users, user.name) == Some(user.id)
    requires !HasCredential(CredentialsOf(s.users, s.credentialsByUserHandle, user.name), credential.credentialId)
    ensures credential !in s.ListedCredentials(user.name)
    ensures s.AddCredential(user, credential, createdAt, lastUsed).ListedCredentials(user.name)
            == s.ListedCredentials(user.name) + {credential}
  {
    var s' := s.AddCredential(user, credential, createdAt, lastUsed);
    var before := CredentialsOf(s.users, s.credentialsByUserHandle, user.name);
    var idString := IdString(credential.credentialId);
    assert s'.passkeyMetadata.Keys == s.passkeyMetadata.Keys + {idString};
    assert CredentialsOf(s'.users, s'.credentialsByUserHandle, user.name) == before + {credential};
    forall c | c in before
      ensures IdString(c.credentialId) != idString
    {
      if IdString(c.credentialId) == idString {
        IdStringInjective(c.credentialId, credential.credentialId);
      }
    }
  }

  /** Registering a credential whose id the user does not hold yet adds exactly one passkey
      to the user's list (credentials without metadata stay unlisted); when every credential
      of the user had metadata, every one still has. */
  lemma AddCredentialCountsOne(s: StoreState, user: UserIdentity, credential: RegisteredCredential,
                               createdAt: Timestamp, lastUsed: Timestamp)
    requires UserHandleFor(s.users, user.name) == Some(user.id)
    requires !HasCredential(CredentialsOf(s.users, s.credentialsByUserHandle, user.name), credential.credentialId)
    ensures s.AddCredential(user, credential, createdAt, lastUsed).PasskeyCount(user.name) == s.PasskeyCount(user.name) + 1
    ensures AllListed(s, user.name) ==> AllListed(s.AddCredential(user, credential, createdAt, lastUsed), user.name)
  {
    ListedAfterAdd(s, user, credential, createdAt, lastUsed);
    var s' := s.AddCredential(user, credential, createdAt, lastUsed);
    assert CredentialsOf(s'.users, s'.credentialsByUserHandle, user.name)
           == CredentialsOf(s.users, s.credentialsByUserHandle, user.name) + {credential};
  }

  /** An id that `lookupAll` does not find is held by no user. */
  lemma UnknownIdNotHeld(s: StoreState, username: string, credentialId: Bytes)
    requires LookupAll(s.credentialsByUserHandle, credentialId) == {}
    ensures !HasCredential(CredentialsOf(s.users, s.credentialsByUserHandle, username), credentialId)
  {
    forall c | c in CredentialsOf(s.users, s.credentialsByUserHandle, username)
      ensures c.credentialId != credentialId
    {
      assert c.credentialId == credentialId ==> c in LookupAll(s.credentialsByUserHandle, credentialId);
    }
  }

  /** A registration whose id `lookupAll` does not find anywhere adds exactly one passkey
      to the user's list. */
  lemma UnknownIdCountsOne(s: StoreState, user: UserIdentity, credential: RegisteredCredential,
                           createdAt: Timestamp, lastUsed: Timestamp)
    requires UserHandleFor(s.users, user.name) == Some(user.id)
    requires LookupAll(s.credentialsByUserHandle, credential.credentialId) == {}
    ensures s.AddCredential(user, credential, createdAt, lastUsed).PasskeyCount(user.name) == s.PasskeyCount(user.name) + 1
  {
    UnknownIdNotHeld(s, user.name, credential.credentialId);
    AddCredentialCountsOne(s, user, credential, createdAt, lastUsed);
  }

  /** A user created and then given a credential lists exactly that one passkey, named
      "Passkey 1", whatever the store held before. */
  lemma FirstPasskeyAfterCreate(s: StoreState, username: string, displayName: string, userHandle: Bytes,
                                credential: RegisteredCredential, createdAt: Timestamp, lastUsed: Timestamp)
    requires s.Valid()
    ensures var s' := s.CreateUser(username, displayName, userHandle)
                       .AddCredential(UserIdentity(username, username, userHandle), credential, createdAt, lastUsed);
      && s'.PasskeyCount(username) == 1
      && credential in s'.ListedCredentials(username)
      && s'.passkeyMetadata[IdString(credential.credentialId)].name == "Passkey 1"
  {
    var created := s.CreateUser(username, displayName, userHandle);
    var user := UserIdentity(username, username, userHandle);
    CreateUserStartsOver(s, username, displayName, userHandle);
    AddCredentialCountsOne(created, user, credential, createdAt, lastUsed);
    AddCredentialEffect(created, user, credential, createdAt, lastUsed);
    assert PasskeyName(1) == "Passkey 1";
  }

  // ------------------------------------------------------------------ passkey ordinals

  /** The store-changing operations with a single outcome (`updateSignatureCount`, whose
      outcome depends on iteration order, changes only credential sets and is covered by
      `SignatureCountUpdated`). */
  datatype Operation =
    | CreateUserOp(username: string, displayName: string, userHandle: Bytes)
    | AddCredentialOp(user: UserIdentity, credential: RegisteredCredential, createdAt: Timestamp, lastUsed: Timestamp)
    | RenamePasskeyOp(username: string, passkeyId: string, newName: string)
    | DeletePasskeyOp(username: string, passkeyId: string)

  function Apply(s: StoreState, op: Operation): StoreState {
    match op
    case CreateUserOp(u, d, h) => s.CreateUser(u, d, h)
    case AddCredentialOp(user, c, t0, t1) => s.AddCredential(user, c, t0, t1)
    case RenamePasskeyOp(u, p, n) => s.RenamePasskey(u, p, n)
    case DeletePasskeyOp(u, p) => s.DeletePasskey(u, p)
  }

  function Run(s: StoreState, ops: seq<Operation>): StoreState
    decreases |ops|
  {
    if ops == [] then s else Run(Apply(s, ops[0]), ops[1..])
  }

  predicate AddsFor(op: Operation, username: string) {
    op.AddCredentialOp? && op.user.name == username
  }

  /** How many of the operations add a credential for the user. */
  function AddCount(ops: seq<Operation>, username: string): nat {
    if ops == [] then 0 else (if AddsFor(ops[0], username) then 1 else 0) + AddCount(ops[1..], username)
  }

  /** The names `addCredential` gives the user's new passkeys along the run, in order. */
  function AssignedNames(s: StoreState, ops: seq<Operation>, username: string): seq<string>
    decreases |ops|
  {
    if ops == [] then []
    else
      (if AddsFor(ops[0], username) then [PasskeyName(IntSucc(s.CounterOf(username)))] else [])
      + AssignedNames(Apply(s, ops[0]), ops[1..], username)
  }

  predicate Recreates(op: Operation, username: string) {
    op.CreateUserOp? && op.username == username
  }

  lemma ApplyKeepsValid(s: StoreState, op: Operation)
    requires s.Valid()
    ensures Apply(s, op).Valid()
  {
  }

  /** One operation other than recreating the user moves the user's counter only when it
      adds a credential for that user. */
  lemma ApplyCounter(s: StoreState, op: Operation, username: string)
    requires !Recreates(op, username)
    ensures Apply(s, op).CounterOf(username)
            == if AddsFor(op, username) then IntSucc(s.CounterOf(username)) else s.CounterOf(username)
  {
  }

  lemma NoRecreateInTail(ops: seq<Operation>, username: string)
    requires ops != []
    requires forall i :: 0 <= i < |ops| ==> !Recreates(ops[i], username)
    ensures !Recreates(ops[0], username)
    ensures forall i :: 0 <= i < |ops[1..]| ==> !Recreates(ops[1..][i], username)
  {
    assert forall i :: 0 <= i < |ops[1..]| ==> ops[1..][i] == ops[i + 1];
  }

  lemma ConsNames(c: int, n: nat, rest: seq<string>)
    requires rest == seq(n, k => PasskeyName(c + 1 + k + 1))
    ensures [PasskeyName(c + 1)] + rest == seq(n + 1, k => PasskeyName(c + k + 1))
  {
  }

  /** Along any run that does not recreate the user and stays below `Integer.MAX_VALUE`,
      the user's counter grows by one per added credential (deletions never lower it) and
      the k-th new passkey is named after counter value `c + k`. */
  lemma {:induction false} CounterAlongRun(s: StoreState, ops: seq<Operation>, username: string)
    requires s.Valid()
    requires forall i :: 0 <= i < |ops| ==> !Recreates(ops[i], username)
    requires s.CounterOf(username) + AddCount(ops, username) <= INT_MAX
    ensures Run(s, ops).CounterOf(username) == s.CounterOf(username) + AddCount(ops, username)
    ensures AssignedNames(s, ops, username)
            == seq(AddCount(ops, username), k => PasskeyName(s.CounterOf(username) + k + 1))
    decreases |ops|
  {
    if ops != [] {
      var c := s.CounterOf(username);
      var s1 := Apply(s, ops[0]);
      ApplyKeepsValid(s, ops[0]);
      NoRecreateInTail(ops, username);
      ApplyCounter(s, ops[0], username);
      assert IsInt(c);
      CounterAlongRun(s1, ops[1..], username);
      var rest := AssignedNames(s1, ops[1..], username);
      if AddsFor(ops[0], username) {
        assert s1.CounterOf(username) == c + 1;
        ConsNames(c, AddCount(ops[1..], username), rest);
      }
    }
  }

  /** Names of consecutive ordinals after `c` are pairwise different and differ from the
      name of every ordinal up to `c`. */
  lemma ConsecutiveNamesFresh(c: int, names: seq<string>)
    requires names == seq(|names|, k => PasskeyName(c + k + 1))
    ensures Distinct(names)
    ensures forall k :: k <= c ==> PasskeyName(k) !in names
  {
    forall i, j | 0 <= i < j < |names| ensures names[i] != names[j] {
      if names[i] == names[j] {
        PasskeyNameInjective(c + i + 1, c + j + 1);
      }
    }
    forall k | k <= c ensures PasskeyName(k) !in names {
      if PasskeyName(k) in names {
        var i :| 0 <= i < |names| && names[i] == PasskeyName(k);
        PasskeyNameInjective(k, c + i + 1);
      }
    }
  }

  /** Passkey ordinals are never reused: along such a run the names handed out are pairwise
      different, and none repeats a name of an ordinal up to the starting counter. */
  lemma OrdinalsNeverReused(s: StoreState, ops: seq<Operation>, username: string)
    requires s.Valid()
    requires forall i :: 0 <= i < |ops| ==> !Recreates(ops[i], username)
    requires s.CounterOf(username) + AddCount(ops, username) <= INT_MAX
    ensures Distinct(AssignedNames(s, ops, username))
    ensures forall k :: k <= s.CounterOf(username) ==> PasskeyName(k) !in AssignedNames(s, ops, username)
  {
    CounterAlongRun(s, ops, username);
    ConsecutiveNamesFresh(s.CounterOf(username), AssignedNames(s, ops, username));
  }

  // ------------------------------------------------------------------ deleting a passkey

  /** Deleting takes off the user's list exactly the credentials with that id string. */
  lemma DeleteRemovesOnlyThatId(s: StoreState, username: string, passkeyId: string)
    requires s.Valid()
    ensures s.DeletePasskey(username, passkeyId).ListedCredentials(username)
            == (if s.OwnsPasskey(username, passkeyId)
                then set c | c in s.ListedCredentials(username) && IdString(c.credentialId) != passkeyId
                else s.ListedCredentials(username))
    ensures s.DeletePasskey(username, passkeyId).userPasskeyCounters == s.userPasskeyCounters
  {
    var s' := s.DeletePasskey(username, passkeyId);
    if s.OwnsPasskey(username, passkeyId) {
      assert UserHandleFor(s'.users, username) == UserHandleFor(s.users, username);
    }
  }

  /** Among credentials with pairwise different ids, at most one has a given id string. */
  lemma AtMostOneWithIdString(credentials: set<RegisteredCredential>, passkeyId: string)
    requires DistinctIds(credentials)
    ensures |set c | c in credentials && IdString(c.credentialId) == passkeyId| <= 1
  {
    var matching := set c | c in credentials && IdString(c.credentialId) == passkeyId;
    if matching != {} {
      var c :| c in matching;
      forall d | d in matching ensures d == c {
        IdStringInjective(d.credentialId, c.credentialId);
      }
      assert matching == {c};
    }
  }

  /** When the user's credential ids are pairwise different, deleting a listed passkey
      shortens the list by exactly one. */
  lemma DeleteReducesCountByOne(s: StoreState, username: string, passkeyId: string)
    requires s.Valid()
    requires DistinctIds(CredentialsOf(s.users, s.credentialsByUserHandle, username))
    requires exists c :: c in s.ListedCredentials(username) && IdString(c.credentialId) == passkeyId
    ensures s.DeletePasskey(username, passkeyId).PasskeyCount(username) == s.PasskeyCount(username) - 1
  {
    var c :| c in s.ListedCredentials(username) && IdString(c.credentialId) == passkeyId;
    assert s.OwnsPasskey(username, passkeyId);
    DeleteRemovesOnlyThatId(s, username, passkeyId);
    var listed := s.ListedCredentials(username);
    forall d | d in listed && IdString(d.credentialId) == passkeyId ensures d == c {
      IdStringInjective(d.credentialId, c.credentialId);
    }
    assert s.DeletePasskey(username, passkeyId).ListedCredentials(username) == listed - {c};
  }

  /** The guard of the delete endpoint: with at least two passkeys listed and pairwise
      different credential ids, any deletion leaves the user at least one passkey. */
  lemma DeleteLeavesAPasskey(s: StoreState, username: string, passkeyId: string)
    requires s.Valid()
    requires DistinctIds(CredentialsOf(s.users, s.credentialsByUserHandle, username))
    requires s.PasskeyCount(username) >= 2
    ensures s.DeletePasskey(username, passkeyId).PasskeyCount(username) >= 1
  {
    DeleteRemovesOnlyThatId(s, username, passkeyId);
    var listed := s.ListedCredentials(username);
    if exists c :: c in listed && IdString(c.credentialId) == passkeyId {
      DeleteReducesCountByOne(s, username, passkeyId);
    } else {
      var kept := set c | c in listed && IdString(c.credentialId) != passkeyId;
      assert kept == listed;
    }
  }

  /** Without distinct ids the guard does not protect the last credential: two records
      with the same id (different counts) count as two passkeys, and one deletion removes
      both. */
  lemma DuplicateIdsDefeatGuard()
    ensures var id: Bytes := [0];
      var alice := UserIdentity("alice", "Alice", [1]);
      var a := RegisteredCredential(id, [1], [2], 0);
      var b := RegisteredCredential(id, [1], [2], 5);
      var s := StoreState(map["alice" := alice], map[[1] := {a, b}], map[id := "alice"],
                          map[IdString(id) := PasskeyInfo(IdString(id), "Passkey 1", 0, 0)], map["alice" := 1]);
      && s.Valid()
      && s.PasskeyCount("alice") == 2
      && s.DeletePasskey("alice", IdString(id)).PasskeyCount("alice") == 0
  {
    var id: Bytes := [0];
    var alice := UserIdentity("alice", "Alice", [1]);
    var a := RegisteredCredential(id, [1], [2], 0);
    var b := RegisteredCredential(id, [1], [2], 5);
    var s := StoreState(map["alice" := alice], map[[1] := {a, b}], map[id := "alice"],
                        map[IdString(id) := PasskeyInfo(IdString(id), "Passkey 1", 0, 0)], map["alice" := 1]);
    assert CredentialsOf(s.users, s.credentialsByUserHandle, "alice") == {a, b};
    assert s.ListedCredentials("alice") == {a, b};
    assert s.OwnsPasskey("alice", IdString(id));
    var s' := s.DeletePasskey("alice", IdString(id));
    assert CredentialsOf(s'.users, s'.credentialsByUserHandle, "alice") == {};
    assert s'.ListedCredentials("alice") == {};
  }

  // ------------------------------------------------------------------ renaming

  /** Only the credential set under `userHandle` holds a credential with this id. */
  predicate HeldOnlyUnder(s: StoreState, credentialId: Bytes, userHandle: Bytes) {
    forall h, c :: h in s.credentialsByUserHandle && c in s.credentialsByUserHandle[h] && c.credentialId == credentialId ==>
      h == userHandle
  }

  /** Renaming or deleting another user's passkey fails and changes nothing, as long as the
      two users have different handles and only the owner's set holds that credential id. */
  lemma CrossUserRenameFails(s: StoreState, owner: string, other: string, credential: RegisteredCredential, newName: string)
    requires owner in s.users && other in s.users
    requires s.users[owner].id != s.users[other].id
    requires HeldOnlyUnder(s, credential.credentialId, s.users[owner].id)
    ensures !s.OwnsPasskey(other, IdString(credential.credentialId))
    ensures s.RenamePasskey(other, IdString(credential.credentialId), newName) == s
    ensures s.DeletePasskey(other, IdString(credential.credentialId)) == s
  {
    var p := IdString(credential.credentialId);
    if s.OwnsPasskey(other, p) {
      var h := s.users[other].id;
      var d :| d in s.credentialsByUserHandle[h] && IdString(d.credentialId) == p;
      IdStringInjective(d.credentialId, credential.credentialId);
      assert false;
    }
  }

  // ------------------------------------------------------------------ filing by user handle

  /** Every credential is filed under its own user handle. */
  predicate FiledUnderOwnHandle(s: StoreState) {
    forall h, c :: h in s.credentialsByUserHandle && c in s.credentialsByUserHandle[h] ==> c.userHandle == h
  }

  /** Every operation keeps credentials filed under their own handle, provided a credential
      being added carries the handle of the user it is added for (the registration
      controller builds it that way). */
  lemma FilingPreserved(s: StoreState, op: Operation)
    requires FiledUnderOwnHandle(s)
    requires op.AddCredentialOp? ==> op.credential.userHandle == op.user.id
    ensures FiledUnderOwnHandle(Apply(s, op))
  {
  }

  /** Updating a signature count keeps credentials filed under their own handle. */
  lemma FilingPreservedBySignatureUpdate(s: StoreState, s': StoreState, userHandle: Bytes, credentialId: Bytes, count: int)
    requires FiledUnderOwnHandle(s)
    requires SignatureCountUpdated(s.credentialsByUserHandle, s'.credentialsByUserHandle, userHandle, credentialId, count)
    ensures FiledUnderOwnHandle(s')
  {
    if userHandle in s.credentialsByUserHandle && HasCredential(s.credentialsByUserHandle[userHandle], credentialId) {
      var c :| c in s.credentialsByUserHandle[userHandle] && c.credentialId == credentialId
        && s'.credentialsByUserHandle == s.credentialsByUserHandle[userHandle :=
             s.credentialsByUserHandle[userHandle] - {c} + {WithCount(c, count)}];
      assert WithCount(c, count).userHandle == userHandle;
    }
  }

  // ------------------------------------------------------------------ unique credential ids

  predicate Stored(m: CredentialSets, userHandle: Bytes, c: RegisteredCredential) {
    userHandle in m && c in m[userHandle]
  }

  /** No credential id occurs twice in the store: two stored credentials with the same id
      are the same record under the same handle. */
  ghost predicate UniqueCredentialIds(s: StoreState) {
    forall h1, h2, c1, c2 ::
      (Stored(s.credentialsByUserHandle, h1, c1) && Stored(s.credentialsByUserHandle, h2, c2) &&
       c1.credentialId == c2.credentialId) ==> h1 == h2 && c1 == c2
  }

  /** Ids stay unique when every record of the new map is either one new record `x` under
      `k` or an old record whose id differs from `x`'s. */
  lemma UniqueAfterInsert(s: StoreState, s': StoreState, k: Bytes, x: RegisteredCredential)
    requires UniqueCredentialIds(s)
    requires forall h, c :: Stored(s'.credentialsByUserHandle, h, c) ==>
      (h == k && c == x) || (Stored(s.credentialsByUserHandle, h, c) && c.credentialId != x.credentialId)
    ensures UniqueCredentialIds(s')
  {
  }

  /** Ids stay unique when every record of the new map was already stored under its handle. */
  lemma UniqueAfterShrink(s: StoreState, s': StoreState)
    requires UniqueCredentialIds(s)
    requires forall h, c :: Stored(s'.credentialsByUserHandle, h, c) ==> Stored(s.credentialsByUserHandle, h, c)
    ensures UniqueCredentialIds(s')
  {
  }

  /** Every operation keeps ids unique, provided a credential being added has an id that
      `lookupAll` does not find yet. */
  lemma UniqueIdsPreserved(s: StoreState, op: Operation)
    requires UniqueCredentialIds(s)
    requires op.AddCredentialOp? ==> LookupAll(s.credentialsByUserHandle, op.credential.credentialId) == {}
    ensures UniqueCredentialIds(Apply(s, op))
  {
    var s' := Apply(s, op);
    match op
    case AddCredentialOp(user, x, _, _) =>
      forall h, c | Stored(s'.credentialsByUserHandle, h, c)
        ensures (h == user.id && c == x) || (Stored(s.credentialsByUserHandle, h, c) && c.credentialId != x.credentialId)
      {
        if !(h == user.id && c == x) {
          assert Stored(s.credentialsByUserHandle, h, c);
        }
      }
      UniqueAfterInsert(s, s', user.id, x);
    case CreateUserOp(_, _, _) =>
      UniqueAfterShrink(s, s');
    case RenamePasskeyOp(_, _, _) =>
    case DeletePasskeyOp(_, _) =>
      UniqueAfterShrink(s, s');
  }

  /** Updating a signature count keeps ids unique. */
  lemma UniqueIdsPreservedBySignatureUpdate(s: StoreState, s': StoreState, userHandle: Bytes, credentialId: Bytes, count: int)
    requires UniqueCredentialIds(s)
    requires SignatureCountUpdated(s.credentialsByUserHandle, s'.credentialsByUserHandle, userHandle, credentialId, count)
    ensures UniqueCredentialIds(s')
  {
    var before := s.credentialsByUserHandle;
    if userHandle in before && HasCredential(before[userHandle], credentialId) {
      var c0: RegisteredCredential :| c0 in before[userHandle] && c0.credentialId == credentialId
        && s'.credentialsByUserHandle == before[userHandle := before[userHandle] - {c0} + {WithCount(c0, count)}];
      var w := WithCount(c0, count);
      forall h, c | Stored(s'.credentialsByUserHandle, h, c)
        ensures (h == userHandle && c == w) || (Stored(before, h, c) && c.credentialId != w.credentialId)
      {
        if !(h == userHandle && c == w) {
          assert Stored(before, h, c);
          if c.credentialId == w.credentialId {
            assert Stored(before, userHandle, c0);
          }
        }
      }
      UniqueAfterInsert(s, s', userHandle, w);
    } else {
      assert s'.credentialsByUserHandle == before;
    }
  }

  /** With unique ids, each user's credentials have pairwise different ids. */
  lemma UniqueIdsGiveDistinctIds(s: StoreState, username: string)
    requires UniqueCredentialIds(s)
    ensures DistinctIds(CredentialsOf(s.users, s.credentialsByUserHandle, username))
  {
    var m := s.credentialsByUserHandle;
    if username in s.users && s.users[username].id in m {
      var h := s.users[username].id;
      forall a: RegisteredCredential, b: RegisteredCredential | a in m[h] && b in m[h] && a.credentialId == b.credentialId ensures a == b {
        assert Stored(m, h, a) && Stored(m, h, b);
      }
    }
  }

  /** With unique ids, a stored credential's id is held under its own handle only. */
  lemma UniqueIdsHeldOnlyUnder(s: StoreState, userHandle: Bytes, credential: RegisteredCredential)
    requires UniqueCredentialIds(s)
    requires Stored(s.credentialsByUserHandle, userHandle, credential)
    ensures HeldOnlyUnder(s, credential.credentialId, userHandle)
  {
    var m := s.credentialsByUserHandle;
    forall h: Bytes, c: RegisteredCredential | h in m && c in m[h] && c.credentialId == credential.credentialId ensures h == userHandle {
      assert Stored(m, h, c);
    }
  }

  // ------------------------------------------------------------------ unique user handles

  /** `createUser` under a handle that no other identity carries keeps handles unique, so
      `HandleRoundTrip` still holds afterwards; this is what the 64 random bytes of a new
      user's handle are relied on for. */
  lemma CreateUserKeepsHandlesUnique(s: StoreState, username: string, displayName: string, userHandle: Bytes)
    requires s.Valid() && HandlesUnique(s.users)
    requires NamesWithHandle(s.users, userHandle) <= {username}
    ensures HandlesUnique(s.CreateUser(username, displayName, userHandle).users)
  {
    forall u | u in s.users && u != username
      ensures s.users[u].id != userHandle
    {
      var identity := s.users[u];
      assert identity.id == userHandle ==> identity.name in NamesWithHandle(s.users, userHandle);
    }
  }

  /** A handle another user already carries is not harmless: `createUser` then files the
      new name under it and gives it an empty set, so the other user loses every credential
      and the two names share one handle. */
  lemma HandleCollisionEmptiesOtherUser(s: StoreState, username: string, displayName: string, userHandle: Bytes, other: string)
    requires other in s.users && other != username && s.users[other].id == userHandle
    ensures var s' := s.CreateUser(username, displayName, userHandle);
      && CredentialsOf(s'.users, s'.credentialsByUserHandle, other) == {}
      && s'.PasskeyCount(other) == 0
      && !HandlesUnique(s'.users)
  {
    var s' := s.CreateUser(username, displayName, userHandle);
    assert UserHandleFor(s'.users, other) == Some(userHandle);
    assert s'.users[username].id == s'.users[other].id;
  }

  /** Every operation keeps user handles unique, provided a created user's handle is not
      carried by another identity; the other operations leave the identities alone. */
  lemma HandlesUniquePreserved(s: StoreState, op: Operation)
    requires s.Valid() && HandlesUnique(s.users)
    requires op.CreateUserOp? ==> NamesWithHandle(s.users, op.userHandle) <= {op.username}
    ensures HandlesUnique(Apply(s, op).users)
    ensures !op.CreateUserOp? ==> Apply(s, op).users == s.users
  {
    if op.CreateUserOp? {
      CreateUserKeepsHandlesUnique(s, op.username, op.displayName, op.userHandle);
    }
  }

  // ------------------------------------------------------------------ registering a credential

  /** What filing a newly registered credential under a stored user's handle keeps and
      changes: credentials stay under their own handle and, when `lookupAll` did not know
      the id, ids stay unique and the user lists exactly one more passkey. */
  lemma RegisteredCredentialEffect(s: StoreState, user: UserIdentity, credential: RegisteredCredential,
                                   createdAt: Timestamp, lastUsed: Timestamp)
    requires UserHandleFor(s.users, user.name) == Some(user.id)
    requires credential.userHandle == user.id
    ensures var s' := s.AddCredential(user, credential, createdAt, lastUsed);
      && (FiledUnderOwnHandle(s) ==> FiledUnderOwnHandle(s'))
      && (LookupAll(s.credentialsByUserHandle, credential.credentialId) == {} ==>
            && (UniqueCredentialIds(s) ==> UniqueCredentialIds(s'))
            && s'.PasskeyCount(user.name) == s.PasskeyCount(user.name) + 1)
  {
    var op := AddCredentialOp(user, credential, createdAt, lastUsed);
    if FiledUnderOwnHandle(s) {
      FilingPreserved(s, op);
    }
    if LookupAll(s.credentialsByUserHandle, credential.credentialId) == {} {
      if UniqueCredentialIds(s) {
        UniqueIdsPreserved(s, op);
      }
      UnknownIdCountsOne(s, user, credential, createdAt, lastUsed);
    }
  }
}
