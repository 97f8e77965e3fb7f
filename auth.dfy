/** The bearer-token gate in front of every task route. */
module Auth {
  import opened Wrappers
  import Text
  import Http
  import Users
  import Tokens

  const Scheme: string := "Bearer "
  const NoTokenMessage: string := "Access denied. No token provided."
  const InvalidTokenMessage: string := "Invalid token."
  const UnknownUserMessage: string := "Invalid token. User not found."

  /** The two ways a request leaves the gate. */
  datatype Outcome =
    | Rejected(message: string)
    | Admitted(user: Users.PublicUser)

  /** The token the gate goes on with: the header after an exact,
      case-sensitive `"Bearer "`, trimmed, and present only when non-empty. */
  function ExtractToken(header: string): (r: Option<string>)
    ensures r.Some? <==> Text.StartsWith(header, Scheme) && !Text.AllSpace(header[|Scheme|..])
    ensures r.Some? ==> r.value == Text.Trim(header[|Scheme|..]) && Text.IsTrimmed(r.value)
  {
    if Text.StartsWith(header, Scheme) then
      var rest := header[|Scheme|..];
      Text.TrimEmptyIff(rest);
      Text.TrimFixesTrimmed(rest);
      var t := Text.Trim(rest);
      if t == [] then None else Some(t)
    else None
  }

  /** What the gate decides for one request. `header` is the `Authorization`
      header when sent, `verify` the token codec's check, `users` the stored
      users and `outage` a failure of the user lookup. */
  function Decide(header: Option<string>, verify: string -> Option<Users.UserId>,
                  users: map<Users.UserId, Users.UserRecord>, outage: bool): Outcome
  {
    match ExtractToken(header.GetOr(""))
    case None => Rejected(NoTokenMessage)
    case Some(token) =>
      match verify(token)
      case None => Rejected(InvalidTokenMessage)
      case Some(id) =>
        if outage then Rejected(InvalidTokenMessage)
        else if id !in users then Rejected(UnknownUserMessage)
        else Admitted(Users.Public(users[id]))
  }

  /** A missing header, or one without the exact `"Bearer "` prefix, is
      rejected as carrying no token. */
  lemma NoBearerPrefixRejected(header: Option<string>, verify: string -> Option<Users.UserId>,
                               users: map<Users.UserId, Users.UserRecord>, outage: bool)
    requires header.None? || !Text.StartsWith(header.value, Scheme)
    ensures Decide(header, verify, users, outage) == Rejected(NoTokenMessage)
  {
  }

  /** A `"Bearer "` prefix followed only by white space counts as no token. */
  lemma BlankTokenRejected(header: string, verify: string -> Option<Users.UserId>,
                           users: map<Users.UserId, Users.UserRecord>, outage: bool)
    requires Text.StartsWith(header, Scheme) && Text.AllSpace(header[|Scheme|..])
    ensures Decide(Some(header), verify, users, outage) == Rejected(NoTokenMessage)
  {
  }

  /** A token the codec refuses, or a lookup that fails, gives "Invalid token.". */
  lemma VerifyFailureRejected(header: string, verify: string -> Option<Users.UserId>,
                              users: map<Users.UserId, Users.UserRecord>, outage: bool)
    requires ExtractToken(header).Some?
    requires verify(ExtractToken(header).value).None? || outage
    ensures Decide(Some(header), verify, users, outage) == Rejected(InvalidTokenMessage)
  {
  }

  /** A token that decodes to an id with no stored user is stale. */
  lemma UnknownUserRejected(header: string, verify: string -> Option<Users.UserId>,
                            users: map<Users.UserId, Users.UserRecord>)
    requires ExtractToken(header).Some?
    requires verify(ExtractToken(header).value).Some?
    requires verify(ExtractToken(header).value).value !in users
    ensures Decide(Some(header), verify, users, false) == Rejected(UnknownUserMessage)
  {
  }

  /** Admission happens only for a well-formed bearer token that verifies to
      a stored user, and the attached identity is that user's record as
      stored now, without its password. */
  lemma AdmittedMeansVerified(header: Option<string>, verify: string -> Option<Users.UserId>,
                              users: map<Users.UserId, Users.UserRecord>, outage: bool)
    requires Decide(header, verify, users, outage).Admitted?
    ensures header.Some? && ExtractToken(header.value).Some? && !outage
    ensures var id := verify(ExtractToken(header.value).value);
            id.Some? && id.value in users &&
            Decide(header, verify, users, outage).user == Users.Public(users[id.value])
  {
  }

  /** A token issued by a sound codec for a stored user opens the gate to that
      user, with any white space around the token; once the user is gone the
      same token is refused as stale. */
  lemma {:induction false} IssuedTokenAdmitted(c: Tokens.Codec, id: Users.UserId, pad: string,
                                               users: map<Users.UserId, Users.UserRecord>)
    requires Tokens.Sound(c)
    requires Text.AllSpace(pad)
    ensures var h := Scheme + pad + c.sign(id) + pad;
            Decide(Some(h), c.verify, users, false) ==
              if id in users then Admitted(Users.Public(users[id])) else Rejected(UnknownUserMessage)
  {
    var t := c.sign(id);
    assert c.verify(t) == Some(id) && Text.IsTrimmed(t);
    var h := Scheme + pad + t + pad;
    var rest := pad + t + pad;
    assert h[..|Scheme|] == Scheme;
    assert h[|Scheme|..] == rest;
    assert Text.Trim(rest) == t by { TrimPadded(pad, t); }
  }

  /** Trimming removes exactly the padding around a trimmed token. */
  lemma {:induction false} TrimPadded(pad: string, t: string)
    requires Text.AllSpace(pad) && Text.IsTrimmed(t)
    ensures Text.Trim(pad + t + pad) == t
  {
    var s := pad + t + pad;
    var a := Text.TrimStart(s);
    Text.TrimStartShape(s);
    assert s[|pad|] == t[0];
    assert |a| == |t| + |pad|;
    assert a == t + pad;
    var r := Text.TrimEnd(a);
    Text.TrimEndShape(a);
    assert a[|t| - 1] == t[|t| - 1];
    assert |r| == |t|;
    assert r == a[..|t|] == t;
  }

  /** The request, response and `next` of one call through the gate. */
  class Exchange {
    /** `req.user`. */
    var user: Option<Users.PublicUser>
    /** What `res.status(...).json(...)` has sent, if anything. */
    var reply: Option<Http.Response<Http.NoData>>
    /** How many times `next()` has been called. */
    var nextCalls: nat

    constructor ()
      ensures user.None? && reply.None? && nextCalls == 0
    {
      user := None;
      reply := None;
      nextCalls := 0;
    }
  }

  /** `authenticate(req, res, next)`. Exactly one of two things happens: a 401
      reply with the decision's message, or `req.user` is set and `next` runs
      once. */
  method Authenticate(ex: Exchange, header: Option<string>, verify: string -> Option<Users.UserId>,
                      users: map<Users.UserId, Users.UserRecord>, outage: bool)
    requires ex.reply.None? && ex.nextCalls == 0
    modifies ex
    ensures ex.reply.Some? != (ex.nextCalls == 1) && ex.nextCalls <= 1
    ensures match Decide(header, verify, users, outage)
            case Rejected(m) =>
              ex.reply == Some(Http.Fail(401, m)) && ex.user == old(ex.user) && ex.nextCalls == 0
            case Admitted(u) =>
              ex.user == Some(u) && ex.reply.None? && ex.nextCalls == 1
  {
    var authHeader := header.GetOr("");
    var token: Option<string> := None;
    if Text.StartsWith(authHeader, Scheme) {
      token := Some(Text.Trim(authHeader[|Scheme|..]));
    }
    assert ExtractToken(authHeader) == if token.Some? && token.value != [] then token else None;
    if token.None? || token.value == [] {
      ex.reply := Some(Http.Fail(401, NoTokenMessage));
      return;
    }
    var decoded := verify(token.value);
    if decoded.None? || outage {
      // the `catch` branch: `verifyToken` or `User.findById` threw
      ex.reply := Some(Http.Fail(401, InvalidTokenMessage));
      return;
    }
    if decoded.value !in users {
      ex.reply := Some(Http.Fail(401, UnknownUserMessage));
      return;
    }
    ex.user := Some(Users.Public(users[decoded.value]));
    ex.nextCalls := ex.nextCalls + 1;
  }
}
