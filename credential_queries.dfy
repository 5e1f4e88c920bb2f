/**
 * The read-only queries both in-memory repositories share (their bodies are the same in the
 * two classes), stated over the two maps they read: usernames to identities, and user
 * handles to credential sets. Java iterates hash maps and hash sets in an unspecified
 * order; where a query returns the first match of such an iteration, the model is a loop
 * that picks elements in an arbitrary order, and its contract holds whichever it picks.
 */
module CredentialQueries {
  import opened Wrappers
  import opened WebAuthnTypes

  type Users = map<string, UserIdentity>
  type CredentialSets = map<Bytes, set<RegisteredCredential>>

  /** Every identity is stored under its own name (`createUser` keeps this). */
  predicate NamesMatchKeys(users: Users) {
    forall u :: u in users ==> users[u].name == u
  }

  /** No two usernames share a user handle. */
  predicate HandlesUnique(users: Users) {
    forall u, v :: u in users && v in users && users[u].id == users[v].id ==> u == v
  }

  /** `getUserHandleForUsername`: the stored identity's handle when the username is a key. */
  function UserHandleFor(users: Users, username: string): Option<Bytes> {
    if username in users then Some(users[username].id) else None
  }

  /** The names of the identities that carry `userHandle`. */
  function NamesWithHandle(users: Users, userHandle: Bytes): set<string> {
    set u | u in users && users[u].id == userHandle :: users[u].name
  }

  /** `getUsernameForUserHandle`: walks the identities and returns the name of the first
      one whose handle matches. */
  method FindUsernameForHandle(users: Users, userHandle: Bytes) returns (r: Option<string>)
    ensures r.Some? ==> r.value in NamesWithHandle(users, userHandle)
    ensures r.None? <==> NamesWithHandle(users, userHandle) == {}
  {
    var rest := users.Keys;
    while rest != {}
      invariant rest <= users.Keys
      invariant forall u :: u in users && u !in rest ==> users[u].id != userHandle
      decreases rest
    {
      var u :| u in rest;
      if users[u].id == userHandle {
        return Some(users[u].name);
      }
      rest := rest - {u};
    }
    r := None;
    assert forall n :: n !in NamesWithHandle(users, userHandle);
  }

  /** Username to handle and back: while names match keys and handles are unique, the
      handle of a stored username leads back to exactly that username. */
  lemma HandleRoundTrip(users: Users, username: string)
    requires NamesMatchKeys(users) && HandlesUnique(users)
    requires username in users
    ensures UserHandleFor(users, username).Some?
    ensures NamesWithHandle(users, UserHandleFor(users, username).value) == {username}
  {
    var h := users[username].id;
    assert username in NamesWithHandle(users, h);
    forall n | n in NamesWithHandle(users, h) ensures n == username {
      var u :| u in users && users[u].id == h && users[u].name == n;
    }
  }

  predicate HasCredential(credentials: set<RegisteredCredential>, credentialId: Bytes) {
    exists c :: c in credentials && c.credentialId == credentialId
  }

  /** The search loop of `updateSignatureCount` and the `findFirst` of `lookup`: some
      credential of the set with the given id, or None when there is none. */
  method FindCredential(credentials: set<RegisteredCredential>, credentialId: Bytes)
    returns (r: Option<RegisteredCredential>)
    ensures r.Some? ==> r.value in credentials && r.value.credentialId == credentialId
    ensures r.None? <==> !HasCredential(credentials, credentialId)
  {
    var rest := credentials;
    while rest != {}
      invariant rest <= credentials
      invariant forall c :: c in credentials && c !in rest ==> c.credentialId != credentialId
      decreases rest
    {
      var c :| c in rest;
      if c.credentialId == credentialId {
        return Some(c);
      }
      rest := rest - {c};
    }
    return None;
  }

  /** `lookupAll`: every credential with the id, across all users. */
  function LookupAll(byHandle: CredentialSets, credentialId: Bytes): (r: set<RegisteredCredential>)
    ensures forall c :: c in r <==> c.credentialId == credentialId && exists h :: h in byHandle && c in byHandle[h]
  {
    set h, c | h in byHandle && c in byHandle[h] && c.credentialId == credentialId :: c
  }

  /** `lookup`: a credential with the id taken from that handle's own set only. */
  method Lookup(byHandle: CredentialSets, credentialId: Bytes, userHandle: Bytes)
    returns (r: Option<RegisteredCredential>)
    ensures r.Some? ==> userHandle in byHandle && r.value in byHandle[userHandle]
    ensures r.Some? ==> r.value.credentialId == credentialId && r.value in LookupAll(byHandle, credentialId)
    ensures r.None? <==> userHandle !in byHandle || !HasCredential(byHandle[userHandle], credentialId)
  {
    if userHandle in byHandle {
      r := FindCredential(byHandle[userHandle], credentialId);
    } else {
      r := None;
    }
  }

  /** The credentials registered under a username's handle; empty for an unknown username
      or a handle without a set. */
  function CredentialsOf(users: Users, byHandle: CredentialSets, username: string): set<RegisteredCredential> {
    match UserHandleFor(users, username)
    case Some(h) => if h in byHandle then byHandle[h] else {}
    case None => {}
  }

  /** `getCredentialIdsForUsername`: the ids of that user's credentials (one descriptor of
      type public-key per id), empty for an unknown user. */
  function CredentialIdsFor(users: Users, byHandle: CredentialSets, username: string): (r: set<Bytes>)
    ensures forall id :: id in r <==> HasCredential(CredentialsOf(users, byHandle, username), id)
    ensures username !in users ==> r == {}
  {
    set c | c in CredentialsOf(users, byHandle, username) :: c.credentialId
  }

  /** The record `updateSignatureCount` builds: same id, handle and key, the new count. */
  function WithCount(c: RegisteredCredential, newSignatureCount: int): RegisteredCredential {
    RegisteredCredential(c.credentialId, c.userHandle, c.publicKeyCose, newSignatureCount)
  }

  /** What `updateSignatureCount(userHandle, credentialId, n)` does to the credential sets:
      when that handle's set holds a credential with the id, one such credential is
      replaced by its copy with count `n`; otherwise nothing changes. */
  ghost predicate SignatureCountUpdated(before: CredentialSets, after: CredentialSets,
                                        userHandle: Bytes, credentialId: Bytes, newSignatureCount: int)
  {
    if userHandle in before && HasCredential(before[userHandle], credentialId) then
      exists c :: c in before[userHandle] && c.credentialId == credentialId &&
        after == before[userHandle := before[userHandle] - {c} + {WithCount(c, newSignatureCount)}]
    else
      after == before
  }

  /** After an update, that handle's set holds the id with the new count, keeps every
      credential with another id, gains nothing else, and every other handle is untouched. */
  lemma SignatureCountUpdateEffect(before: CredentialSets, after: CredentialSets,
                                   userHandle: Bytes, credentialId: Bytes, n: int)
    requires SignatureCountUpdated(before, after, userHandle, credentialId, n)
    requires userHandle in before && HasCredential(before[userHandle], credentialId)
    ensures after.Keys == before.Keys
    ensures exists c :: c in after[userHandle] && c.credentialId == credentialId && c.signatureCount == n
    ensures forall c :: c in before[userHandle] && c.credentialId != credentialId ==> c in after[userHandle]
    ensures forall c :: c in after[userHandle] && c.credentialId != credentialId ==> c in before[userHandle]
    ensures forall h :: h in before && h != userHandle ==> after[h] == before[h]
  {
    var c :| c in before[userHandle] && c.credentialId == credentialId &&
             after == before[userHandle := before[userHandle] - {c} + {WithCount(c, n)}];
    assert WithCount(c, n) in after[userHandle];
  }

  /** No two credentials of the set share an id. */
  predicate DistinctIds(credentials: set<RegisteredCredential>) {
    forall a, b :: a in credentials && b in credentials && a.credentialId == b.credentialId ==> a == b
  }

  predicate Distinct<T(==)>(s: seq<T>) {
    forall i, j :: 0 <= i < j < |s| ==> s[i] != s[j]
  }

  /** A sequence without repetitions has as many elements as the set it enumerates. */
  lemma {:induction false} DistinctLength<T>(s: seq<T>, elements: set<T>)
    requires Distinct(s)
    requires forall x :: x in s <==> x in elements
    ensures |s| == |elements|
  {
    if s != [] {
      var last := s[|s| - 1];
      var init := s[..|s| - 1];
      assert forall x :: x in init <==> x in elements - {last} by {
        forall x ensures x in init <==> x in elements - {last} {
          if x in init {
            var i :| 0 <= i < |init| && init[i] == x;
            assert s[i] == x;
          }
          if x in elements - {last} {
            assert x in s;
            var i :| 0 <= i < |s| && s[i] == x;
            assert i != |s| - 1;
            assert init[i] == x;
          }
        }
      }
      DistinctLength(init, elements - {last});
    } else {
      assert forall x :: x !in elements;
      assert elements == {};
    }
  }
}
