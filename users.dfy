/** The user model: the schema's field rules, the hash-on-save hook and
    password comparison. */
module Users {
  import Text

  /** Identifiers the store hands out (MongoDB ObjectIds, here fresh naturals). */
  type UserId = nat

  /** What the `password` field holds. `Digest(text, salt)` is an idealised
      one-way hash: a free constructor, so two digests are equal only when
      both the plaintext and the salt are. This is an idealisation: bcrypt
      reads only the first 72 bytes of the UTF-8 password. */
  datatype Secret = Plain(text: string) | Digest(text: string, salt: nat)

  /** Length of a bcrypt hash string (`$2a$10$` + 22 salt + 31 hash characters). */
  const DigestLength: nat := 60

  /** `bcrypt.hash(plaintext, salt)`. */
  function Hash(plaintext: string, salt: nat): Secret {
    Digest(plaintext, salt)
  }

  /** `bcrypt.compare(candidate, stored)`: false for anything that is not a digest. */
  function Compare(candidate: string, stored: Secret): bool {
    stored.Digest? && stored.text == candidate
  }

  /** The hasher's contract: comparing against a digest succeeds exactly for
      the plaintext that was hashed, whatever the salt, and a digest is never
      the plaintext itself. */
  lemma HashThenCompare(p: string, q: string, salt: nat)
    ensures Compare(q, Hash(p, salt)) <==> q == p
    ensures Hash(p, salt) != Plain(p)
  {
  }

  /** Three astral characters (emoji, say) are six UTF-16 units, so such a
      password passes `minlength: 6`. */
  lemma {:induction false} AstralPasswordLongEnough(p: string)
    requires |p| == 3 && forall i :: 0 <= i < |p| ==> Text.IsAstral(p[i])
    ensures StoredLength(Plain(p)) >= MinPasswordLength
  {
    Text.JsLengthUnits(p);
  }

  /** The length the `minlength` validator sees: JavaScript's `.length`. */
  function StoredLength(s: Secret): nat {
    match s
    case Plain(t) => Text.JsLength(t)
    case Digest(_, _) => DigestLength
  }

  const MinPasswordLength: nat := 6

  /** The `email` field's setters, `lowercase: true` then `trim: true`. */
  function NormalizeEmail(e: string): string {
    Text.Trim(Text.ToLower(e))
  }

  /** A normalised address has no upper-case ASCII letter and no white space
      at either end. */
  lemma NormalizedShape(e: string)
    ensures var r := NormalizeEmail(e);
            && |r| <= |e|
            && (forall i :: 0 <= i < |r| ==> !('A' <= r[i] <= 'Z'))
            && (r == [] || Text.IsTrimmed(r))
  {
    var l := Text.ToLower(e);
    Text.ToLowerAt(e);
    Text.TrimFixesTrimmed(l);
    Text.TrimKeepsChars(l);
  }

  /** Normalising a normalised address changes nothing, so the stored email
      and a query for it normalise to the same key. */
  lemma {:induction false} NormalizeIdempotent(e: string)
    ensures NormalizeEmail(NormalizeEmail(e)) == NormalizeEmail(e)
  {
    var n := NormalizeEmail(e);
    NormalizedShape(e);
    var l := Text.ToLower(n);
    Text.ToLowerAt(n);
    assert l == n by {
      forall i | 0 <= i < |n| ensures l[i] == n[i] {
        assert Text.LowerChar(n[i]) == n[i];
      }
    }
    Text.TrimFixesTrimmed(n);
    if n == [] {
      assert Text.Trim([]) == [];
    }
  }

  /** The schema's validators as they run on `save()`, before the hash hook:
      `email` and `name` are required (non-empty after their setters) and the
      password is required with at least six characters. */
  predicate SchemaValid(name: string, email: string, password: Secret) {
    name != [] && email != [] && StoredLength(password) >= MinPasswordLength
  }

  /** A stored user document. */
  datatype UserRecord = UserRecord(id: UserId, name: string, email: string, password: Secret)

  /** The document as `select("-password")` and the `{ id, name, email }`
      projection return it: everything but the password. */
  datatype PublicUser = PublicUser(id: UserId, name: string, email: string)

  function Public(u: UserRecord): PublicUser {
    PublicUser(u.id, u.name, u.email)
  }

  /** `user.comparePassword(candidate)`: only a hashed password can match. */
  function ComparePassword(u: UserRecord, candidate: string): (r: bool)
    ensures r ==> u.password.Digest? && u.password != Plain(candidate)
  {
    Compare(candidate, u.password)
  }

  /** A user document in memory, between `new User(...)` and `save()`. */
  class UserDocument {
    var name: string
    var email: string
    var password: Secret
    /** `isModified("password")`. */
    var passwordModified: bool

    /** `new User({ name, email, password })`: the setters trim the name and
        normalise the email; a new document has every path modified. */
    constructor (name: string, email: string, password: string)
      ensures this.name == Text.Trim(name) && this.email == NormalizeEmail(email)
      ensures this.password == Plain(password) && passwordModified
    {
      this.name := Text.Trim(name);
      this.email := NormalizeEmail(email);
      this.password := Plain(password);
      passwordModified := true;
    }

    /** `save()`: validation, then the `pre("save")` hook that hashes the
        password only when it was modified; afterwards nothing is modified.
        `ok` is false when validation throws, and then nothing changes. */
    method Save(salt: nat) returns (ok: bool)
      modifies this
      ensures ok <==> old(SchemaValid(name, email, password))
      ensures !ok ==> unchanged(this)
      ensures ok ==> name == old(name) && email == old(email) && !passwordModified
      ensures ok ==> password == if old(passwordModified) then Hash(old(password).text, salt) else old(password)
    {
      if !SchemaValid(name, email, password) {
        return false;
      }
      if passwordModified {
        password := Hash(password.text, salt);
      }
      passwordModified := false;
      ok := true;
    }

    /** The document as it is now stored under `id`. */
    function Record(id: UserId): UserRecord
      reads this
    {
      UserRecord(id, name, email, password)
    }
  }

  /** Saving a new document stores a digest of the plaintext, which
      `comparePassword` accepts for that plaintext only; saving it again
      keeps the same digest. */
  method SaveTwiceKeepsHash(name: string, email: string, password: string, s1: nat, s2: nat)
    returns (first: Secret, second: Secret)
    requires Text.JsLength(password) >= MinPasswordLength && Text.Trim(name) != [] && NormalizeEmail(email) != []
    ensures first == Hash(password, s1) && first != Plain(password)
    ensures forall q :: Compare(q, first) <==> q == password
    ensures second == first
  {
    var doc := new UserDocument(name, email, password);
    var ok := doc.Save(s1);
    first := doc.password;
    ok := doc.Save(s2);
    second := doc.password;
  }
}
