/**
 * The records the two collection files hold, how a request becomes a stored record, and the
 * reference definitions of the lookups the handlers perform over a collection.
 *
 * Before a record is written, its UUID, date and datetime fields are replaced by their string
 * forms (Python's `str`), and an absent optional value by the string of `None`. Those string
 * conversions are library behaviour, so the model takes them as a parameter, `Canon`.
 */
module Records {
  import opened Wrappers
  import opened Models

  /** The string form of Python's `None`. */
  const NONE_TEXT := "None"

  /** The string conversions of UUIDs, dates and datetimes. */
  datatype Canon = Canon(uuid: Uuid -> string, date: Date -> string, dateTime: DateTime -> string)

  /**
   * The conversions lose nothing: each is one-to-one, and none yields the string of `None`
   * (a date or datetime never prints as "None").
   */
  ghost predicate Lossless(c: Canon) {
    && (forall a: Uuid, b: Uuid :: c.uuid(a) == c.uuid(b) ==> a == b)
    && (forall a: Date, b: Date :: c.date(a) == c.date(b) ==> a == b)
    && (forall a: DateTime, b: DateTime :: c.dateTime(a) == c.dateTime(b) ==> a == b)
    && (forall d: Date :: c.date(d) != NONE_TEXT)
    && (forall d: DateTime :: c.dateTime(d) != NONE_TEXT)
  }

  /**
   * `str` of an optional value: the string of `None` when absent, the value's own string
   * otherwise; when no value prints as "None", that string marks exactly the absent value.
   */
  function OptionalText<T(!new)>(f: T -> string, o: Option<T>): (r: string)
    ensures o.None? ==> r == NONE_TEXT
    ensures o.Some? ==> r == f(o.value)
    ensures (forall x: T :: f(x) != NONE_TEXT) ==> (r == NONE_TEXT <==> o.None?)
  {
    match o
    case None => NONE_TEXT
    case Some(x) => f(x)
  }

  /** A row of the user collection, as signup writes it (the password included). */
  datatype UserRecord = UserRecord(
    userId: string,
    email: Email,
    firstName: string,
    lastName: string,
    birthDate: string,
    password: string)

  /** The snapshot of the posting user embedded in a tweet row. */
  datatype AuthorRecord = AuthorRecord(
    userId: string,
    email: Email,
    firstName: string,
    lastName: string,
    birthDate: string)

  /** A row of the tweet collection, as post writes it. */
  datatype TweetRecord = TweetRecord(
    tweetId: string,
    content: string,
    createdAt: string,
    updatedAt: string,
    postedBy: AuthorRecord)

  /** The row signup stores: `user_id` and `birth_date` converted, every other field as given. */
  function UserRow(c: Canon, u: UserRegister): (r: UserRecord)
    ensures r.userId == c.uuid(u.userId)
    ensures u.birthDate.None? ==> r.birthDate == NONE_TEXT
    ensures u.birthDate.Some? ==> r.birthDate == c.date(u.birthDate.value)
    ensures r.email == u.email && r.firstName == u.firstName && r.lastName == u.lastName
    ensures r.password == u.password
    ensures AuthorRow(c, u.AsUser()) ==
      AuthorRecord(r.userId, r.email, r.firstName, r.lastName, r.birthDate)
  {
    UserRecord(c.uuid(u.userId), u.email, u.firstName, u.lastName,
               OptionalText(c.date, u.birthDate), u.password)
  }

  /** The snapshot of a user that post embeds: converted as signup converts, without a password. */
  function AuthorRow(c: Canon, u: User): (r: AuthorRecord)
    ensures r.userId == c.uuid(u.userId)
    ensures u.birthDate.None? ==> r.birthDate == NONE_TEXT
    ensures u.birthDate.Some? ==> r.birthDate == c.date(u.birthDate.value)
    ensures r.email == u.email && r.firstName == u.firstName && r.lastName == u.lastName
  {
    AuthorRecord(c.uuid(u.userId), u.email, u.firstName, u.lastName,
                 OptionalText(c.date, u.birthDate))
  }

  /** The row post stores: ids and timestamps converted, the posting user converted likewise. */
  function TweetRow(c: Canon, t: Tweet): (r: TweetRecord)
    ensures r.tweetId == c.uuid(t.tweetId) && r.createdAt == c.dateTime(t.createdAt)
    ensures t.updatedAt.None? ==> r.updatedAt == NONE_TEXT
    ensures t.updatedAt.Some? ==> r.updatedAt == c.dateTime(t.updatedAt.value)
    ensures r.content == t.content
    ensures r.postedBy == AuthorRow(c, t.postedBy)
  {
    TweetRecord(c.uuid(t.tweetId), t.content, c.dateTime(t.createdAt),
                OptionalText(c.dateTime, t.updatedAt), AuthorRow(c, t.postedBy))
  }

  /**
   * No information is lost when a registration is stored: under lossless conversions, two
   * requests that give the same row are the same request.
   */
  lemma UserRowLossless(c: Canon, u1: UserRegister, u2: UserRegister)
    requires Lossless(c)
    requires UserRow(c, u1) == UserRow(c, u2)
    ensures u1 == u2
  {
  }

  /** Likewise for a posted tweet, including the embedded user. */
  lemma TweetRowLossless(c: Canon, t1: Tweet, t2: Tweet)
    requires Lossless(c)
    requires TweetRow(c, t1) == TweetRow(c, t2)
    ensures t1 == t2
  {
  }

  /** The bounds every stored user row meets, because the request that produced it met them. */
  ghost predicate StoredUserValid(r: UserRecord) {
    ValidName(r.firstName) && ValidName(r.lastName) && ValidPassword(r.password)
  }

  ghost predicate StoredTweetValid(r: TweetRecord) {
    ValidContent(r.content) && ValidName(r.postedBy.firstName) && ValidName(r.postedBy.lastName)
  }

  lemma AcceptedRegistrationStoredValid(c: Canon, u: UserRegister)
    requires UserRegisterViolations(u) == []
    ensures StoredUserValid(UserRow(c, u))
  {
  }

  lemma AcceptedTweetStoredValid(c: Canon, t: Tweet)
    requires TweetViolations(t) == []
    ensures StoredTweetValid(TweetRow(c, t))
  {
  }

  /** The errors a handler raises, with their HTTP status and detail text. */
  datatype ApiError = WrongEmailOrPassword | UserNotExists {
    function Status(): nat {
      match this
      case WrongEmailOrPassword => 400
      case UserNotExists => 404
    }

    function Detail(): string {
      match this
      case WrongEmailOrPassword => "Wrong email or password"
      case UserNotExists => "This user not exists"
    }
  }

  /** Reference definition of show_a_user's scan: the first row, in file order, with the e-mail. */
  function FindByEmail(users: seq<UserRecord>, email: Email): (r: Result<UserRecord, ApiError>)
    ensures r.Ok? ==> r.value in users && r.value.email == email
    ensures r.Err? ==> r.error == UserNotExists
    ensures r.Err? ==> forall i | 0 <= i < |users| :: users[i].email != email
  {
    if users == [] then Err(UserNotExists)
    else if users[0].email == email then Ok(users[0])
    else FindByEmail(users[1..], email)
  }

  /** Row `i` is the first row carrying `email`. */
  ghost predicate FirstWithEmail(users: seq<UserRecord>, email: Email, i: int) {
    && 0 <= i < |users|
    && users[i].email == email
    && forall j | 0 <= j < i :: users[j].email != email
  }

  /** Reference definition of login's check: some row has both the e-mail and the password. */
  ghost predicate HasCredentials(users: seq<UserRecord>, email: Email, password: string)
    ensures HasCredentials(users, email, password) ==> FindByEmail(users, email).Ok?
  {
    exists i | 0 <= i < |users| :: users[i].email == email && users[i].password == password
  }

  lemma {:induction false} FindByEmailAt(users: seq<UserRecord>, email: Email, i: int)
    requires FirstWithEmail(users, email, i)
    ensures FindByEmail(users, email) == Ok(users[i])
  {
    if i > 0 {
      assert FirstWithEmail(users[1..], email, i - 1);
      FindByEmailAt(users[1..], email, i - 1);
    }
  }

  lemma FindByEmailMissing(users: seq<UserRecord>, email: Email)
    requires forall j | 0 <= j < |users| :: users[j].email != email
    ensures FindByEmail(users, email) == Err(UserNotExists)
  {
  }

  /**
   * What FindByEmail means: it finds a row exactly when some row has the e-mail, and then it is
   * the first such row; otherwise it fails with UserNotExists.
   */
  lemma {:induction false} FindByEmailIsFirstMatch(users: seq<UserRecord>, email: Email)
    ensures FindByEmail(users, email).Ok? <==> exists i | 0 <= i < |users| :: users[i].email == email
    ensures FindByEmail(users, email).Ok? ==>
      exists i :: FirstWithEmail(users, email, i) && users[i] == FindByEmail(users, email).value
    ensures FindByEmail(users, email).Err? ==> FindByEmail(users, email).error == UserNotExists
  {
    if users == [] {
    } else if users[0].email == email {
      assert FirstWithEmail(users, email, 0);
    } else {
      FindByEmailIsFirstMatch(users[1..], email);
      var rest := FindByEmail(users[1..], email);
      if rest.Ok? {
        var k :| FirstWithEmail(users[1..], email, k) && users[1..][k] == rest.value;
        assert FirstWithEmail(users, email, k + 1);
        assert users[1 + k] == users[1..][k];
      } else {
        forall i | 0 <= i < |users| ensures users[i].email != email {
          if i > 0 {
            assert users[i] == users[1..][i - 1];
          }
        }
      }
    }
  }

  /**
   * Lookup after one more row is appended: an earlier match still wins, so a second registration
   * under the same e-mail is never the one returned; the new row is found only when it is the
   * first with its e-mail.
   */
  lemma {:induction false} FindByEmailAfterAppend(users: seq<UserRecord>, r: UserRecord, email: Email)
    ensures FindByEmail(users + [r], email) ==
      if FindByEmail(users, email).Ok? then FindByEmail(users, email)
      else if r.email == email then Ok(r)
      else Err(UserNotExists)
  {
    if users == [] {
      assert users + [r] == [r];
      assert [r][1..] == [];
    } else {
      assert (users + [r])[0] == users[0];
      assert (users + [r])[1..] == users[1..] + [r];
      FindByEmailAfterAppend(users[1..], r, email);
    }
  }

  /** The login check after one more row is appended: the old rows still match, and so does the new one. */
  lemma CredentialsAfterAppend(users: seq<UserRecord>, r: UserRecord, email: Email, password: string)
    ensures HasCredentials(users + [r], email, password) <==>
      HasCredentials(users, email, password) || (r.email == email && r.password == password)
  {
    var all := users + [r];
    if HasCredentials(all, email, password) {
      var i :| 0 <= i < |all| && all[i].email == email && all[i].password == password;
      if i < |users| {
        assert users[i] == all[i];
      }
    }
    if HasCredentials(users, email, password) {
      var i :| 0 <= i < |users| && users[i].email == email && users[i].password == password;
      assert all[i] == users[i];
    }
    if r.email == email && r.password == password {
      assert all[|users|] == r;
    }
  }

  /** The number of rows carrying `email`. */
  function CountWithEmail(users: seq<UserRecord>, email: Email): nat {
    if users == [] then 0
    else (if users[0].email == email then 1 else 0) + CountWithEmail(users[1..], email)
  }

  lemma {:induction false} CountWithEmailAppend(users: seq<UserRecord>, r: UserRecord, email: Email)
    ensures CountWithEmail(users + [r], email) ==
      CountWithEmail(users, email) + (if r.email == email then 1 else 0)
  {
    if users == [] {
      assert users + [r] == [r];
      assert [r][1..] == [];
    } else {
      assert (users + [r])[0] == users[0];
      assert (users + [r])[1..] == users[1..] + [r];
      CountWithEmailAppend(users[1..], r, email);
    }
  }

  lemma {:induction false} CountWithEmailPositive(users: seq<UserRecord>, email: Email, i: int)
    requires 0 <= i < |users| && users[i].email == email
    ensures CountWithEmail(users, email) >= 1
  {
    if i > 0 {
      assert users[1..][i - 1] == users[i];
      CountWithEmailPositive(users[1..], email, i - 1);
    }
  }

  /**
   * Registration does not enforce unique e-mails: appending a row under an e-mail that is
   * already present leaves at least two rows with that e-mail.
   */
  lemma DuplicateEmailIsStored(users: seq<UserRecord>, r: UserRecord)
    requires FindByEmail(users, r.email).Ok?
    ensures CountWithEmail(users + [r], r.email) >= 2
  {
    FindByEmailIsFirstMatch(users, r.email);
    var i :| 0 <= i < |users| && users[i].email == r.email;
    CountWithEmailPositive(users, r.email, i);
    CountWithEmailAppend(users, r, r.email);
  }
}
