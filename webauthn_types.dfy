/**
 * The values the store keeps: Yubico's `UserIdentity` and `RegisteredCredential` (immutable
 * value records, compared field by field) and the application's `PasskeyInfo` metadata.
 */
module WebAuthnTypes {
  import JavaText
  import Base64Url

  /** `ByteArray`: user handles, credential ids and COSE public keys. */
  type Bytes = seq<Base64Url.byte>

  /** A `LocalDateTime.now()` reading, taken as an opaque parameter. */
  type Timestamp = int

  datatype UserIdentity = UserIdentity(name: string, displayName: string, id: Bytes)

  datatype RegisteredCredential = RegisteredCredential(
    credentialId: Bytes,
    userHandle: Bytes,
    publicKeyCose: Bytes,
    signatureCount: int)

  /** Friendly metadata of one passkey; `id` is the base64url string of the credential id. */
  datatype PasskeyInfo = PasskeyInfo(id: string, name: string, createdAt: Timestamp, lastUsed: Timestamp)

  /** `credentialId.getBase64Url()`. */
  function IdString(credentialId: Bytes): string {
    Base64Url.Encode(credentialId)
  }

  lemma IdStringInjective(a: Bytes, b: Bytes)
    requires IdString(a) == IdString(b)
    ensures a == b
  {
    Base64Url.Injective(a, b);
  }

  // ------------------------------------------------------------ Java `int` arithmetic

  const INT_MIN: int := -0x8000_0000
  const INT_MAX: int := 0x7fff_ffff

  predicate IsInt(n: int) {
    INT_MIN <= n <= INT_MAX
  }

  /** `n + 1` on a Java `int`: wraps from `Integer.MAX_VALUE` to `Integer.MIN_VALUE`. */
  function IntSucc(n: int): (r: int)
    ensures IsInt(r)
    ensures IsInt(n) ==> r == (if n == INT_MAX then INT_MIN else n + 1)
  {
    (n - INT_MIN + 1) % 0x1_0000_0000 + INT_MIN
  }

  /** The friendly name the store gives the `n`-th passkey of a user: `"Passkey " + n`. */
  function PasskeyName(n: int): string {
    "Passkey " + JavaText.IntToString(n)
  }

  /** Different ordinals give different names. */
  lemma PasskeyNameInjective(a: int, b: int)
    requires PasskeyName(a) == PasskeyName(b)
    ensures a == b
  {
    assert JavaText.IntToString(a) == PasskeyName(a)[8..] == PasskeyName(b)[8..] == JavaText.IntToString(b);
    JavaText.IntToStringInjective(a, b);
  }
}
