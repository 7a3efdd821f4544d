/**
 * The request models of the service (UserBase, UserLogin, User, Tweet, UserRegister) and the
 * length constraints their fields declare. The web framework checks these constraints before a
 * handler runs and answers with a list of violations when any fails; the handlers are only ever
 * called with requests that have none.
 */
module Models {
  import opened Wrappers

  /** A UUID is a 128-bit number. */
  type Uuid = n: nat | n < 0x1_0000_0000_0000_0000_0000_0000_0000_0000

  datatype Date = Date(year: int, month: int, day: int)

  datatype DateTime = DateTime(date: Date, hour: int, minute: int, second: int, microsecond: int)

  /**
   * An e-mail address as the framework hands it to a handler, after its address check has
   * normalised it (surrounding whitespace stripped, the domain lowercased, a "Name <addr>" form
   * reduced to the address). The model compares such normalised addresses as plain strings; the
   * check and the normalisation themselves are not modelled.
   */
  type Email = string

  const MIN_PASSWORD_LENGTH: nat := 8
  const MIN_NAME_LENGTH: nat := 1
  const MAX_NAME_LENGTH: nat := 50
  const MIN_CONTENT_LENGTH: nat := 1
  const MAX_CONTENT_LENGTH: nat := 256

  datatype UserBase = UserBase(userId: Uuid, email: Email)

  datatype UserLogin = UserLogin(userId: Uuid, email: Email, password: string)

  datatype User = User(
    userId: Uuid,
    email: Email,
    firstName: string,
    lastName: string,
    birthDate: Option<Date>)

  datatype Tweet = Tweet(
    tweetId: Uuid,
    content: string,
    createdAt: DateTime,
    updatedAt: Option<DateTime>,
    postedBy: User)

  datatype UserRegister = UserRegister(
    userId: Uuid,
    email: Email,
    firstName: string,
    lastName: string,
    birthDate: Option<Date>,
    password: string)
  {
    /** The same request seen through the User model (the password dropped). */
    function AsUser(): User {
      User(userId, email, firstName, lastName, birthDate)
    }
  }

  predicate ValidPassword(p: string) {
    |p| >= MIN_PASSWORD_LENGTH
  }

  predicate ValidName(n: string) {
    MIN_NAME_LENGTH <= |n| <= MAX_NAME_LENGTH
  }

  predicate ValidContent(c: string) {
    MIN_CONTENT_LENGTH <= |c| <= MAX_CONTENT_LENGTH
  }

  /** The bound a field broke: it is shorter than `min` or longer than `max` characters. */
  datatype Limit = AtLeast(min: nat) | AtMost(max: nat)

  /** One failed constraint, located by the path of field names that leads to it. */
  datatype Violation = Violation(loc: seq<string>, broken: Limit)

  /**
   * The length check of one string field: the lower bound is tested first, then the upper bound
   * when there is one, and at most one violation is reported per field.
   */
  function CheckLength(field: string, s: string, min: nat, max: Option<nat>): (r: seq<Violation>)
    ensures r == [] <==> min <= |s| && (max.Some? ==> |s| <= max.value)
    ensures |r| <= 1
    ensures forall v | v in r :: v.loc == [field]
    ensures forall v | v in r :: v.broken == if |s| < min then AtLeast(min) else AtMost(max.value)
  {
    if |s| < min then [Violation([field], AtLeast(min))]
    else if max.Some? && |s| > max.value then [Violation([field], AtMost(max.value))]
    else []
  }

  /** Every violation of `vs`, relocated under the field `field` of an enclosing model. */
  function Nested(field: string, vs: seq<Violation>): (r: seq<Violation>)
    ensures |r| == |vs|
    ensures forall i | 0 <= i < |r| :: r[i] == Violation([field] + vs[i].loc, vs[i].broken)
    ensures forall v | v in r :: exists w | w in vs :: v == Violation([field] + w.loc, w.broken)
  {
    seq(|vs|, i requires 0 <= i < |vs| => Violation([field] + vs[i].loc, vs[i].broken))
  }

  function UserLoginViolations(u: UserLogin): (r: seq<Violation>)
    ensures r == [] <==> ValidPassword(u.password)
    ensures forall v | v in r :: v == Violation(["password"], AtLeast(MIN_PASSWORD_LENGTH))
  {
    CheckLength("password", u.password, MIN_PASSWORD_LENGTH, None)
  }

  function UserViolations(u: User): (r: seq<Violation>)
    ensures r == [] <==> ValidName(u.firstName) && ValidName(u.lastName)
    ensures forall v | v in r :: v.loc == ["first_name"] || v.loc == ["last_name"]
  {
    CheckLength("first_name", u.firstName, MIN_NAME_LENGTH, Some(MAX_NAME_LENGTH))
      + CheckLength("last_name", u.lastName, MIN_NAME_LENGTH, Some(MAX_NAME_LENGTH))
  }

  function UserRegisterViolations(u: UserRegister): (r: seq<Violation>)
    ensures r == [] <==> ValidName(u.firstName) && ValidName(u.lastName) && ValidPassword(u.password)
    ensures forall v | v in r :: v.loc in {["first_name"], ["last_name"], ["password"]}
  {
    UserViolations(u.AsUser()) + CheckLength("password", u.password, MIN_PASSWORD_LENGTH, None)
  }

  function TweetViolations(t: Tweet): (r: seq<Violation>)
    ensures r == [] <==> ValidContent(t.content) && ValidName(t.postedBy.firstName) && ValidName(t.postedBy.lastName)
    ensures forall v | v in r :: v.loc in {["content"], ["by", "first_name"], ["by", "last_name"]}
  {
    var inner := UserViolations(t.postedBy);
    var nested := Nested("by", inner);
    assert forall v | v in nested :: v.loc in {["by", "first_name"], ["by", "last_name"]} by {
      forall v | v in nested ensures v.loc in {["by", "first_name"], ["by", "last_name"]} {
        var w :| w in inner && v == Violation(["by"] + w.loc, w.broken);
        if w.loc == ["first_name"] {
          assert v.loc == ["by", "first_name"];
        } else {
          assert v.loc == ["by", "last_name"];
        }
      }
    }
    CheckLength("content", t.content, MIN_CONTENT_LENGTH, Some(MAX_CONTENT_LENGTH)) + nested
  }
}
