/**
 * The bearer-token gate of the HTTP API (middleware/auth.js) and the same token
 * decoding applied to real-time connections (server.js). The token verifier
 * (`jwt.verify` with the server secret) is a parameter: `None` stands for a
 * verifier that throws (bad signature, expired, malformed).
 */
module Auth {
  import opened Wrappers
  import opened JsText
  import opened JsNumber
  import opened JsValues

  /** The decoded token payload fields the core reads. */
  datatype Claims = Claims(id: JsValue, isAdmin: JsValue)

  /** What a request or a connection knows about its user. */
  datatype Identity = Identity(userId: JsValue, isAdmin: bool)

  /** A connection without a (valid) token: `userId` and `isAdmin` are left undefined. */
  const Anonymous := Identity(Undefined, false)

  type Verifier = JsValue -> Option<Claims>

  /** `userId = decoded.id; isAdmin = !!decoded.isAdmin` */
  function IdentityOf(c: Claims): (who: Identity)
    ensures who.userId == c.id
    ensures who.isAdmin <==> c.isAdmin !in {Undefined, Null, Bool(false), Number(NaN), Number(Int(0)), Str("")}
  {
    Identity(c.id, Truthy(c.isAdmin))
  }

  /** `authorization?.split(" ")[1]`, kept only when it is a non-empty string. */
  function BearerToken(authorization: Option<string>): (token: Option<string>)
    ensures token.Some? ==> token.value != [] && ' ' !in token.value
  {
    match authorization
    case None => None
    case Some(h) =>
      var fields := Split(h, ' ');
      if |fields| >= 2 && fields[1] != [] then Some(fields[1]) else None
  }

  /** Whatever the first word is, the second space-separated field is the token. */
  lemma BearerTokenOf(scheme: string, token: string, rest: string)
    requires ' ' !in scheme && ' ' !in token && token != []
    requires rest == [] || rest[0] == ' '
    ensures BearerToken(Some(scheme + " " + token + rest)) == Some(token)
  {
    assert scheme + " " + token + rest == scheme + [' '] + (token + rest);
    SplitAtFirst(scheme, token + rest, ' ');
    if rest == [] {
      assert token + rest == token;
      SplitWithoutSep(token, ' ');
    } else {
      assert token + rest == token + [' '] + rest[1..];
      SplitAtFirst(token, rest[1..], ' ');
    }
  }

  /** Conversely, a token is only ever found as the second field, after one space. */
  lemma BearerTokenShape(h: string, token: string) returns (scheme: string, rest: string)
    requires BearerToken(Some(h)) == Some(token)
    ensures ' ' !in scheme && (rest == [] || rest[0] == ' ')
    ensures h == scheme + " " + token + rest
  {
    var fields := Split(h, ' ');
    JoinSplit(h, ' ');
    JoinFirstTwo(fields, ' ');
    scheme := fields[0];
    rest := if |fields| == 2 then [] else [' '] + Join(fields[2..], ' ');
  }

  /** A header without a space (`"Bearer"` alone) carries no token. */
  lemma NoSpaceNoToken(h: string)
    requires ' ' !in h
    ensures BearerToken(Some(h)) == None
  {
    SplitWithoutSep(h, ' ');
  }

  /** Two spaces after the first word leave an empty second field, which is no token. */
  lemma DoubleSpaceNoToken(scheme: string, rest: string)
    requires ' ' !in scheme
    ensures BearerToken(Some(scheme + "  " + rest)) == None
  {
    assert scheme + "  " + rest == scheme + [' '] + ([] + [' '] + rest);
    SplitAtFirst(scheme, [] + [' '] + rest, ' ');
    SplitAtFirst([], rest, ' ');
  }

  /** What the middleware does with a request: answer 401 with a message, or call `next`. */
  datatype Decision = Reject(status: nat, message: string) | Proceed(who: Identity)

  function Decide(authorization: Option<string>, verify: Verifier): (d: Decision)
    ensures d.Reject? ==> d.status == 401
    ensures authorization.None? ==> d == Reject(401, "Unauthorized")
  {
    match BearerToken(authorization)
    case None => Reject(401, "Unauthorized")
    case Some(t) =>
      match verify(Str(t))
      case None => Reject(401, "Invalid or expired token")
      case Some(c) => Proceed(IdentityOf(c))
  }

  /** A request proceeds only when its second header field is a token the verifier accepts, and with that token's identity. */
  lemma ProceedsOnlyWithToken(authorization: Option<string>, verify: Verifier)
      returns (scheme: string, token: string, rest: string)
    requires Decide(authorization, verify).Proceed?
    ensures ' ' !in scheme && ' ' !in token && token != [] && (rest == [] || rest[0] == ' ')
    ensures authorization == Some(scheme + " " + token + rest)
    ensures verify(Str(token)).Some?
    ensures Decide(authorization, verify).who == IdentityOf(verify(Str(token)).value)
  {
    token := BearerToken(authorization).value;
    scheme, rest := BearerTokenShape(authorization.value, token);
  }

  /** Any first word followed by a token the verifier accepts lets the request through with that token's identity. */
  lemma AcceptedTokenProceeds(scheme: string, token: string, rest: string, verify: Verifier)
    requires ' ' !in scheme && ' ' !in token && token != [] && (rest == [] || rest[0] == ' ')
    requires verify(Str(token)).Some?
    ensures Decide(Some(scheme + " " + token + rest), verify) == Proceed(IdentityOf(verify(Str(token)).value))
  {
    BearerTokenOf(scheme, token, rest);
  }

  /** A token that reaches the verifier and is refused gets the second 401 message, whatever fields follow it. */
  lemma RefusedTokenRejected(scheme: string, token: string, rest: string, verify: Verifier)
    requires ' ' !in scheme && ' ' !in token && token != [] && (rest == [] || rest[0] == ' ')
    requires verify(Str(token)).None?
    ensures Decide(Some(scheme + " " + token + rest), verify) == Reject(401, "Invalid or expired token")
  {
    BearerTokenOf(scheme, token, rest);
  }

  /** A header that is present but yields no token is refused as "Unauthorized", before the verifier is consulted. */
  lemma NoTokenUnauthorized(h: string, verify: Verifier)
    requires BearerToken(Some(h)).None?
    ensures Decide(Some(h), verify) == Reject(401, "Unauthorized")
  {
  }

  /**
   * The connection handshake: a truthy `auth.token` is verified; success sets the
   * identity, failure leaves the connection anonymous instead of refusing it.
   */
  function SocketIdentity(token: JsValue, verify: Verifier): (who: Identity)
    ensures !Truthy(token) ==> who == Anonymous
  {
    if !Truthy(token) then Anonymous
    else
      match verify(token)
      case None => Anonymous
      case Some(c) => IdentityOf(c)
  }

  /** The HTTP gate and the handshake decode a token the same way; only their failure paths differ. */
  lemma SocketAndRequestAgree(scheme: string, token: string, verify: Verifier)
    requires ' ' !in scheme && ' ' !in token && token != []
    ensures Decide(Some(scheme + " " + token), verify).Proceed? ==>
              SocketIdentity(Str(token), verify) == Decide(Some(scheme + " " + token), verify).who
    ensures Decide(Some(scheme + " " + token), verify).Reject? ==>
              SocketIdentity(Str(token), verify) == Anonymous
  {
    BearerTokenOf(scheme, token, []);
    assert scheme + " " + token + [] == scheme + " " + token;
  }

  /** The JSON reply the middleware sends. */
  datatype Reply = Reply(status: nat, message: string)

  /**
   * One request passing through the middleware: the fields it writes on `req`,
   * what it sends on `res`, and how often it calls `next`.
   */
  class Exchange {
    const authorization: Option<string>
    var userId: JsValue
    var isAdmin: JsValue
    var sent: Option<Reply>
    var nextCalls: nat

    constructor (authorization: Option<string>)
      ensures this.authorization == authorization
      ensures userId == Undefined && isAdmin == Undefined && sent == None && nextCalls == 0
    {
      this.authorization := authorization;
      userId, isAdmin := Undefined, Undefined;
      sent, nextCalls := None, 0;
    }

    /** The default export of middleware/auth.js. */
    method Authenticate(verify: Verifier)
      modifies this
      ensures Decide(authorization, verify).Reject? ==>
        && sent == Some(Reply(401, Decide(authorization, verify).message))
        && nextCalls == old(nextCalls) && userId == old(userId) && isAdmin == old(isAdmin)
      ensures Decide(authorization, verify).Proceed? ==>
        && userId == Decide(authorization, verify).who.userId
        && isAdmin == Bool(Decide(authorization, verify).who.isAdmin)
        && nextCalls == old(nextCalls) + 1 && sent == old(sent)
    {
      var token := BearerToken(authorization);
      if token.None? {
        sent := Some(Reply(401, "Unauthorized"));
        return;
      }
      var decoded := verify(Str(token.value));
      if decoded.None? {
        sent := Some(Reply(401, "Invalid or expired token"));
        return;
      }
      userId := decoded.value.id;
      isAdmin := Bool(Truthy(decoded.value.isAdmin));
      nextCalls := nextCalls + 1;
    }
  }
}
