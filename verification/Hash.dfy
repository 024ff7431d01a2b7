/**
 * The token codec: a token is stored as a salt and the hex digest of the
 * token followed by the salt, and checked by recomputing that digest. The
 * digest (SHA-256 rendered as hex) is a parameter of every member, so
 * nothing here depends on which function it is.
 */
module Hash {
  import opened Js
  import Helper

  /** A one-way digest from text to text. */
  type Digest = string -> string

  /** A byte from the random source. */
  type Byte = x: int | 0 <= x < 256

  /** Length of the generated token. */
  const TokenLength := 100
  /** Number of random bytes in a generated salt. */
  const SaltBytes := 16

  /** `hashToken(token, salt = "")`: the digest of the plain concatenation. */
  function HashToken(digest: Digest, token: string, salt: string := ""): (h: string)
    ensures salt == "" ==> h == digest(token)
  {
    assert token + "" == token;
    digest(token + salt)
  }

  /**
   * Only the concatenation reaches the digest, so two token/salt splittings
   * of the same text hash alike: ("ab", "c") and ("a", "bc") collide.
   */
  lemma HashOfSameConcatenation(digest: Digest, t1: string, s1: string, t2: string, s2: string)
    requires t1 + s1 == t2 + s2
    ensures HashToken(digest, t1, s1) == HashToken(digest, t2, s2)
  {
  }

  lemma HashSplittingsCollide(digest: Digest)
    ensures HashToken(digest, "ab", "c") == HashToken(digest, "a", "bc")
  {
    HashOfSameConcatenation(digest, "ab", "c", "a", "bc");
  }

  /** `verifyToken(token, salt, hashed)`: the recomputed digest equals the stored one. */
  predicate VerifyToken(digest: Digest, token: string, salt: string, hashed: string): (ok: bool)
    ensures ok <==> hashed == HashToken(digest, token + salt)
  {
    HashToken(digest, token, salt) == hashed
  }

  /** A stored hash other than the digest of token and salt never verifies. */
  lemma VerifyRejectsOtherHash(digest: Digest, token: string, salt: string, hashed: string)
    requires hashed != digest(token + salt)
    ensures !VerifyToken(digest, token, salt, hashed)
  {
  }

  /** Lower-case hex digit of a value below 16. */
  function HexDigit(d: int): (c: char)
    requires 0 <= d < 16
    ensures c in "0123456789abcdef"
  {
    "0123456789abcdef"[d]
  }

  /** `buffer.toString("hex")`: two lower-case hex digits per byte. */
  function Hex(bytes: seq<Byte>): (s: string)
    ensures |s| == 2 * |bytes|
    ensures forall i :: 0 <= i < |s| ==> s[i] in "0123456789abcdef"
  {
    seq(2 * |bytes|, i requires 0 <= i < 2 * |bytes| =>
      if i % 2 == 0 then HexDigit(bytes[i / 2] / 16) else HexDigit(bytes[i / 2] % 16))
  }

  /** Byte `i` becomes characters `2i` (its high nibble) and `2i + 1` (its low nibble). */
  lemma HexNibbles(bytes: seq<Byte>)
    ensures forall i :: 0 <= i < |bytes| ==>
      Hex(bytes)[2 * i] == HexDigit(bytes[i] / 16) && Hex(bytes)[2 * i + 1] == HexDigit(bytes[i] % 16)
  {
    forall i | 0 <= i < |bytes|
      ensures Hex(bytes)[2 * i] == HexDigit(bytes[i] / 16) && Hex(bytes)[2 * i + 1] == HexDigit(bytes[i] % 16)
    {
      var h := Hex(bytes);
      var j := 2 * i;
      assert j % 2 == 0 && j / 2 == i;
      assert h[j] == HexDigit(bytes[j / 2] / 16);
      assert (j + 1) % 2 == 1 && (j + 1) / 2 == i;
      assert h[j + 1] == HexDigit(bytes[(j + 1) / 2] % 16);
    }
  }

  /** The result of `generateToken`. */
  datatype GeneratedToken = GeneratedToken(authToken: string, salt: string, hashed: string)

  /**
   * `generateToken(customSalt?)`: a 100-character alphanumeric token from
   * `draws` (the values of `Math.random()`), the custom salt when one is
   * supplied and otherwise the hex of 16 random bytes, and the digest of
   * token and salt; the triple always verifies.
   */
  method GenerateToken(digest: Digest, draws: seq<real>, customSalt: Option<string>, randomBytes: seq<Byte>)
    returns (g: GeneratedToken)
    requires |draws| >= TokenLength
    requires forall i :: 0 <= i < |draws| ==> Helper.IsDraw(draws[i])
    requires |randomBytes| == SaltBytes
    ensures |g.authToken| == TokenLength
    ensures forall i :: 0 <= i < |g.authToken| ==> g.authToken[i] in Helper.AlphanumericChars
    ensures g.salt == if customSalt.Some? then customSalt.value else Hex(randomBytes)
    ensures customSalt.None? ==> |g.salt| == 2 * SaltBytes
    ensures g.hashed == HashToken(digest, g.authToken, g.salt)
    ensures VerifyToken(digest, g.authToken, g.salt, g.hashed)
  {
    var authToken := Helper.GenerateId(TokenLength, Some(Helper.Alphanumeric), draws);
    var salt := if customSalt.Some? then customSalt.value else Hex(randomBytes);
    var hashed := HashToken(digest, authToken, salt);
    g := GeneratedToken(authToken, salt, hashed);
  }
}
