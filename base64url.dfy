/**
 * `ByteArray.getBase64Url()`: the URL-safe alphabet of section 5 of RFC 4648, without
 * padding. The store keys passkey metadata by this string and the management endpoints
 * name passkeys by it, so the model needs it to be injective; `Decode` is a left inverse
 * that proves so.
 */
module Base64Url {
  import opened Wrappers

  type byte = b: int | 0 <= b < 256
  type sextet = k: int | 0 <= k < 64

  /** Digit `k` of the URL-safe alphabet: A-Z, a-z, 0-9, '-', '_'. */
  function Digit(k: sextet): char {
    if k < 26 then ('A' as int + k) as char
    else if k < 52 then ('a' as int + (k - 26)) as char
    else if k < 62 then ('0' as int + (k - 52)) as char
    else if k == 62 then '-'
    else '_'
  }

  /** The value of an alphabet character, or None for any other character. */
  function DigitValue(c: char): (r: Option<sextet>)
    ensures r.Some? ==> Digit(r.value) == c
  {
    if 'A' <= c <= 'Z' then Some(c as int - 'A' as int)
    else if 'a' <= c <= 'z' then Some(c as int - 'a' as int + 26)
    else if '0' <= c <= '9' then Some(c as int - '0' as int + 52)
    else if c == '-' then Some(62)
    else if c == '_' then Some(63)
    else None
  }

  /** The four sextets of three bytes. */
  function Group(b0: byte, b1: byte, b2: byte): seq<sextet> {
    [b0 / 4, b0 % 4 * 16 + b1 / 16, b1 % 16 * 4 + b2 / 64, b2 % 64]
  }

  /** The two or three sextets of a final one or two bytes. */
  function Tail(b: seq<byte>): seq<sextet>
    requires 1 <= |b| <= 2
  {
    if |b| == 1 then [b[0] / 4, b[0] % 4 * 16]
    else [b[0] / 4, b[0] % 4 * 16 + b[1] / 16, b[1] % 16 * 4]
  }

  /** Three bytes become four sextets; a final one or two bytes become two or three. */
  function Sextets(b: seq<byte>): (v: seq<sextet>)
    ensures |v| == (4 * |b| + 2) / 3
  {
    if |b| == 0 then []
    else if |b| <= 2 then Tail(b)
    else Group(b[0], b[1], b[2]) + Sextets(b[3..])
  }

  /** The byte a pair of sextets carries in its top eight bits. */
  function First(v0: sextet, v1: sextet): byte {
    v0 * 4 + v1 / 16
  }

  function Second(v1: sextet, v2: sextet): byte {
    v1 % 16 * 16 + v2 / 4
  }

  function Third(v2: sextet, v3: sextet): byte {
    v2 % 4 * 64 + v3
  }

  /** Reassembles bytes from sextets; None when a single sextet dangles at the end. */
  function Bytes(v: seq<sextet>): Option<seq<byte>>
  {
    if |v| == 0 then Some([])
    else if |v| == 1 then None
    else if |v| == 2 then Some([First(v[0], v[1])])
    else if |v| == 3 then Some([First(v[0], v[1]), Second(v[1], v[2])])
    else match Bytes(v[4..])
      case None => None
      case Some(rest) => Some([First(v[0], v[1]), Second(v[1], v[2]), Third(v[2], v[3])] + rest)
  }

  function Encode(b: seq<byte>): (s: string)
    ensures |s| == (4 * |b| + 2) / 3
  {
    var v := Sextets(b);
    seq(|v|, i requires 0 <= i < |v| => Digit(v[i]))
  }

  /** The sextets of a string, or None when a character is outside the alphabet. */
  function Values(s: string): Option<seq<sextet>>
  {
    if s == [] then Some([])
    else match (DigitValue(s[0]), Values(s[1..]))
      case (Some(k), Some(rest)) => Some([k] + rest)
      case _ => None
  }

  /** Reads a base64url string back into bytes. */
  function Decode(s: string): Option<seq<byte>>
  {
    match Values(s)
    case None => None
    case Some(v) => Bytes(v)
  }

  lemma DigitRoundTrip(k: sextet)
    ensures DigitValue(Digit(k)) == Some(k)
  {
  }

  lemma {:induction false} ValuesOfDigits(v: seq<sextet>)
    ensures Values(seq(|v|, i requires 0 <= i < |v| => Digit(v[i]))) == Some(v)
  {
    var s := seq(|v|, i requires 0 <= i < |v| => Digit(v[i]));
    if v != [] {
      DigitRoundTrip(v[0]);
      assert s[1..] == seq(|v[1..]|, i requires 0 <= i < |v[1..]| => Digit(v[1..][i]));
      ValuesOfDigits(v[1..]);
      assert v == [v[0]] + v[1..];
    }
  }

  lemma TailBytes(b: seq<byte>)
    requires 1 <= |b| <= 2
    ensures Bytes(Tail(b)) == Some(b)
  {
    var v := Tail(b);
    if |b| == 1 {
      assert First(v[0], v[1]) == b[0];
      assert b == [b[0]];
    } else {
      assert First(v[0], v[1]) == b[0];
      assert Second(v[1], v[2]) == b[1];
      assert b == [b[0], b[1]];
    }
  }

  lemma GroupBytes(b0: byte, b1: byte, b2: byte, v: seq<sextet>)
    requires |v| >= 4 && v[..4] == Group(b0, b1, b2)
    ensures Bytes(v) == (match Bytes(v[4..])
                         case None => None
                         case Some(rest) => Some([b0, b1, b2] + rest))
  {
    assert First(v[0], v[1]) == b0;
    assert Second(v[1], v[2]) == b1;
    assert Third(v[2], v[3]) == b2;
  }

  lemma {:induction false} BytesOfSextets(b: seq<byte>)
    ensures Bytes(Sextets(b)) == Some(b)
  {
    if 1 <= |b| <= 2 {
      TailBytes(b);
    } else if |b| >= 3 {
      var v := Sextets(b);
      assert v[..4] == Group(b[0], b[1], b[2]) && v[4..] == Sextets(b[3..]);
      GroupBytes(b[0], b[1], b[2], v);
      BytesOfSextets(b[3..]);
      assert b == [b[0], b[1], b[2]] + b[3..];
    }
  }

  /** Decoding undoes encoding. */
  lemma RoundTrip(b: seq<byte>)
    ensures Decode(Encode(b)) == Some(b)
  {
    ValuesOfDigits(Sextets(b));
    BytesOfSextets(b);
  }

  /** Different byte strings have different base64url strings. */
  lemma Injective(a: seq<byte>, b: seq<byte>)
    requires Encode(a) == Encode(b)
    ensures a == b
  {
    RoundTrip(a);
    RoundTrip(b);
  }
}
