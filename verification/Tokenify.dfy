/**
 * Device-trust tokens over the key-value store. A token is issued by storing
 * its salt and hash under `auth_token-<token>` with an expiry, and verified
 * by looking that key up and recomputing the hash. Only the `auth_token-`
 * part of the store is modelled; the store's expiry is modelled as an
 * explicit deletion of the key.
 */
module Tokenify {
  import opened Js
  import opened Hash
  import Helper

  /** The JSON value `{salt, hash}` stored for a token, with the expiry it was set with. */
  datatype AuthEntry = AuthEntry(salt: string, hash: string, expiresIn: int)

  /** A snapshot of the store's `auth_token-` keys. */
  type Store = map<string, AuthEntry>

  const AuthKeyPrefix := "auth_token-"

  /** The store key of a token: the fixed prefix, followed by the token itself. */
  function AuthKey(token: string): (k: string)
    ensures |k| == |AuthKeyPrefix| + |token|
    ensures k[..|AuthKeyPrefix|] == AuthKeyPrefix && k[|AuthKeyPrefix|..] == token
  {
    AuthKeyPrefix + token
  }

  /** Different tokens live under different keys. */
  lemma AuthKeyInjective(t1: string, t2: string)
    requires AuthKey(t1) == AuthKey(t2)
    ensures t1 == t2
  {
    assert t1 == AuthKey(t1)[|AuthKeyPrefix|..];
    assert t2 == AuthKey(t2)[|AuthKeyPrefix|..];
  }

  /** `!auth_token`: the token is undefined, null or empty. */
  predicate Falsy(token: Option<string>): (b: bool)
    ensures token.None? ==> b
    ensures token == Some("") ==> b
    ensures token.Some? && |token.value| > 0 ==> !b
  {
    token.None? || token.value == ""
  }

  /**
   * `verifyAuthToken(auth_token)` against a snapshot of the store: false for
   * a falsy token (without any lookup) and for a missing key; otherwise
   * whether the stored salt and hash verify the token.
   */
  function VerifyAuthToken(digest: Digest, store: Store, token: Option<string>): (ok: bool)
    ensures Falsy(token) ==> !ok
    ensures ok ==> AuthKey(token.value) in store
    ensures !Falsy(token) && AuthKey(token.value) in store ==>
      var e := store[AuthKey(token.value)];
      ok == VerifyToken(digest, token.value, e.salt, e.hash)
  {
    if Falsy(token) then false
    else
      var key := AuthKey(token.value);
      if key !in store then false
      else VerifyToken(digest, token.value, store[key].salt, store[key].hash)
  }

  /** A token stored with the hash of itself and its salt verifies. */
  lemma IssuedTokenVerifies(digest: Digest, store: Store, token: string, salt: string, expiresIn: int)
    requires token != ""
    ensures VerifyAuthToken(digest, store[AuthKey(token) := AuthEntry(salt, HashToken(digest, token, salt), expiresIn)], Some(token))
  {
  }

  /** Once its key is gone (the expiry elapsed), a token no longer verifies. */
  lemma ExpiredTokenFails(digest: Digest, store: Store, token: Option<string>)
    requires token.Some?
    ensures !VerifyAuthToken(digest, store - {AuthKey(token.value)}, token)
  {
  }

  /** Issuing one token leaves the verdict on every other token as it was. */
  lemma IssueKeepsOtherTokens(digest: Digest, store: Store, issued: string, entry: AuthEntry, token: Option<string>)
    requires token != Some(issued)
    ensures VerifyAuthToken(digest, store[AuthKey(issued) := entry], token) == VerifyAuthToken(digest, store, token)
  {
  }

  /**
   * The token service; `redis` is the content of the shared store's
   * `auth_token-` keys, which the service updates in place.
   */
  class Tokenify {
    const digest: Digest
    var redis: Store

    constructor (digest: Digest, redis: Store)
      ensures this.digest == digest && this.redis == redis
    {
      this.digest := digest;
      this.redis := redis;
    }

    /**
     * `generateAuthToken(res)`: generates a token with a fresh salt, asks the
     * store to keep `{salt, hash}` under its key for `exToken` seconds
     * (`Number(EX_TOKEN)`), and returns the raw token only. The store takes
     * the write only for a positive expiry; it refuses 0, a negative value
     * and NaN, the refusal goes unhandled, and then nothing is stored. When
     * the write is taken, no other key changes and the new token verifies.
     */
    method GenerateAuthToken(exToken: Number, draws: seq<real>, randomBytes: seq<Byte>) returns (authToken: string)
      requires |draws| >= TokenLength
      requires forall i :: 0 <= i < |draws| ==> Helper.IsDraw(draws[i])
      requires |randomBytes| == SaltBytes
      modifies this
      ensures |authToken| == TokenLength
      ensures Less(Finite(0), exToken) ==>
        && redis == old(redis)[AuthKey(authToken) :=
             AuthEntry(Hex(randomBytes), HashToken(digest, authToken, Hex(randomBytes)), exToken.value)]
        && VerifyAuthToken(digest, redis, Some(authToken))
      ensures !Less(Finite(0), exToken) ==> redis == old(redis)
    {
      var ress := GenerateToken(digest, draws, None, randomBytes);
      authToken := ress.authToken;
      if Less(Finite(0), exToken) {
        redis := redis[AuthKey(authToken) := AuthEntry(ress.salt, ress.hashed, exToken.value)];
        IssuedTokenVerifies(digest, old(redis), authToken, ress.salt, exToken.value);
      }
    }

    /** The store's expiry of a token's key, modelled as deleting the key. */
    method ExpireAuthToken(token: string)
      modifies this
      ensures redis == old(redis) - {AuthKey(token)}
      ensures !VerifyAuthToken(digest, redis, Some(token))
    {
      redis := redis - {AuthKey(token)};
    }
  }
}
