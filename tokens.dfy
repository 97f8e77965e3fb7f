/** The token codec behind `generateToken` / `verifyToken`: a signed bearer
    string naming one user id. Signing, expiry and the secret are abstract:
    a codec is a pair of functions, and `Sound` is what the rest of the
    model may assume about it. */
module Tokens {
  import opened Wrappers
  import Text
  import Users

  /** `sign` is `generateToken(userId)`; `verify(t)` is `verifyToken(t)`,
      with `None` standing for the exception `jwt.verify` throws on a
      malformed, forged or expired token. */
  datatype Codec = Codec(sign: Users.UserId -> string, verify: string -> Option<Users.UserId>)

  /** A fresh token verifies to the id it was issued for, and it is a
      compact string with no white space at its ends (as a JSON Web Token is). */
  ghost predicate Sound(c: Codec) {
    forall id: Users.UserId {:trigger c.sign(id)} ::
      c.verify(c.sign(id)) == Some(id) && Text.IsTrimmed(c.sign(id))
  }

  const Prefix: string := "uid."

  /** A concrete codec: the token spells the id in decimal after a fixed prefix. */
  function ReferenceSign(id: Users.UserId): string {
    Prefix + Text.DecimalString(id)
  }

  function ReferenceVerify(t: string): Option<Users.UserId> {
    if Text.StartsWith(t, Prefix) && |t| > |Prefix| && Text.AllDigits(t[|Prefix|..])
    then Some(Text.DecimalValue(t[|Prefix|..]))
    else None
  }

  function Reference(): Codec {
    Codec(ReferenceSign, ReferenceVerify)
  }

  /** The reference codec satisfies `Sound`, so the assumption can be met. */
  lemma ReferenceIsSound()
    ensures Sound(Reference())
  {
    var c := Reference();
    forall id: Users.UserId
      ensures c.verify(c.sign(id)) == Some(id) && Text.IsTrimmed(c.sign(id))
    {
      var d := Text.DecimalString(id);
      var t := Prefix + d;
      assert t[|Prefix|..] == d;
      assert t[..|Prefix|] == Prefix;
      Text.DecimalRoundTrip(id);
      assert t[|t| - 1] == d[|d| - 1];
    }
  }
}
