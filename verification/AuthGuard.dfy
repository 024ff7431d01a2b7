/**
 * The per-request gate in front of every handler: a handler (or its
 * controller class) marked public is admitted outright; any other request
 * is admitted only when the device-trust token in its body verifies.
 */
module AuthGuard {
  import opened Js
  import opened Hash
  import opened Tokenify

  /** The request body: absent (reading a field of it throws) or present, with or without `auth_token`. */
  datatype Body = NoBody | Body(authToken: Option<string>)

  /** Why a request was turned away; both answer with status 401. */
  datatype Denial =
    | TokenRejected   // message "auth_token kadaluarsa." with the ACCESS_DENIED code
    | AccessDenied    // the ACCESS_DENIED message and code, after a thrown error

  /** The guard's answer; a denial carries the HTTP status written to the response. */
  datatype Decision = Allow | Deny(status: int, reason: Denial)

  const Unauthorized := 401

  /**
   * `reflector.getAllAndOverride(IS_PUBLIC_KEY, [handler, class])`: the
   * handler's marking when it has one, otherwise the class's; no marking
   * at all is not public.
   */
  predicate IsPublic(handlerMark: Option<bool>, classMark: Option<bool>): (b: bool)
    ensures handlerMark.Some? ==> (b <==> handlerMark.value)
    ensures handlerMark.None? ==> (b <==> classMark == Some(true))
  {
    if handlerMark.Some? then handlerMark.value
    else classMark.Some? && classMark.value
  }

  /**
   * `canActivate(context)` against a snapshot of the store: public handlers
   * pass without the body being read; otherwise a missing body throws and is
   * denied as ACCESS_DENIED, and a token that does not verify is denied with
   * "auth_token kadaluarsa.".
   */
  function CanActivate(digest: Digest, store: Store, handlerMark: Option<bool>, classMark: Option<bool>,
                       body: Body): (d: Decision)
    ensures d == Allow <==>
      (IsPublic(handlerMark, classMark) || (body.Body? && VerifyAuthToken(digest, store, body.authToken)))
    ensures !IsPublic(handlerMark, classMark) && body.NoBody? ==> d == Deny(Unauthorized, AccessDenied)
    ensures (!IsPublic(handlerMark, classMark) && body.Body? && !VerifyAuthToken(digest, store, body.authToken))
      ==> d == Deny(Unauthorized, TokenRejected)
  {
    if IsPublic(handlerMark, classMark) then Allow
    else match body
      case NoBody => Deny(Unauthorized, AccessDenied)
      case Body(authToken) =>
        if VerifyAuthToken(digest, store, authToken) then Allow else Deny(Unauthorized, TokenRejected)
  }

  /** A public handler is admitted whatever the store holds and whatever the request carries. */
  lemma PublicIgnoresToken(digest: Digest, s1: Store, s2: Store, handlerMark: Option<bool>, classMark: Option<bool>,
                           b1: Body, b2: Body)
    requires IsPublic(handlerMark, classMark)
    ensures CanActivate(digest, s1, handlerMark, classMark, b1) == CanActivate(digest, s2, handlerMark, classMark, b2) == Allow
  {
  }

  /** A non-public handler never admits a request whose token is missing or empty. */
  lemma EmptyTokenNeverAdmitted(digest: Digest, store: Store, handlerMark: Option<bool>, classMark: Option<bool>,
                                token: Option<string>)
    requires !IsPublic(handlerMark, classMark)
    requires token.None? || token == Some("")
    ensures CanActivate(digest, store, handlerMark, classMark, Body(token)) == Deny(Unauthorized, TokenRejected)
  {
  }

  /** A marking on the handler overrides the one on its class. */
  lemma HandlerMarkWins(digest: Digest, store: Store, mark: bool, c1: Option<bool>, c2: Option<bool>, body: Body)
    ensures CanActivate(digest, store, Some(mark), c1, body) == CanActivate(digest, store, Some(mark), c2, body)
  {
  }

  /**
   * A token just issued into the store is admitted on any handler, and
   * after its key expires it is turned away on every non-public handler.
   */
  lemma IssuedThenExpired(digest: Digest, store: Store, token: string, salt: string, expiresIn: int,
                          handlerMark: Option<bool>, classMark: Option<bool>)
    requires token != ""
    ensures
      var issued := store[AuthKey(token) := AuthEntry(salt, HashToken(digest, token, salt), expiresIn)];
      && CanActivate(digest, issued, handlerMark, classMark, Body(Some(token))) == Allow
      && (!IsPublic(handlerMark, classMark) ==>
            CanActivate(digest, issued - {AuthKey(token)}, handlerMark, classMark, Body(Some(token))) == Deny(Unauthorized, TokenRejected))
  {
    var issued := store[AuthKey(token) := AuthEntry(salt, HashToken(digest, token, salt), expiresIn)];
    IssuedTokenVerifies(digest, store, token, salt, expiresIn);
    ExpiredTokenFails(digest, issued, Some(token));
  }
}
