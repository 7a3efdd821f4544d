/**
 * The route handlers over the two collection files. A Store holds the decoded contents of
 * users.json and tweets.json; a handler that writes reads the whole collection, changes it in
 * memory and writes the whole collection back, which here is one reassignment of the field.
 */
module Api {
  import opened Wrappers
  import opened Models
  import opened Records

  class Store {
    /** The string conversions applied before a record is written. */
    const canon: Canon
    /** The rows of users.json, in file order. */
    var users: seq<UserRecord>
    /** The rows of tweets.json, in file order. */
    var tweets: seq<TweetRecord>

    /** Every stored row meets the length bounds its request model declares. */
    ghost predicate Valid()
      reads this
    {
      && (forall i | 0 <= i < |users| :: StoredUserValid(users[i]))
      && (forall i | 0 <= i < |tweets| :: StoredTweetValid(tweets[i]))
    }

    /**
     * The model starts from empty collections. The source does not create the files; it
     * expects them to exist already.
     */
    constructor (c: Canon)
      ensures Valid()
      ensures canon == c && users == [] && tweets == []
    {
      canon := c;
      users := [];
      tweets := [];
    }

    /** POST /signup: appends the converted registration, with no check for a repeated e-mail. */
    method Signup(user: UserRegister) returns (r: UserRegister)
      requires UserRegisterViolations(user) == []
      modifies this
      ensures old(Valid()) ==> Valid()
      ensures users == old(users) + [UserRow(canon, user)]
      ensures tweets == old(tweets)
      ensures r == user
    {
      var results := users;
      var row := UserRow(canon, user);
      AcceptedRegistrationStoredValid(canon, user);
      results := results + [row];
      users := results;
      r := user;
    }

    /**
     * POST /login: scans the users for a row whose e-mail and password both equal the request's;
     * a row with the e-mail but another password does not end the scan. On success the whole,
     * unfiltered tweet collection is returned.
     */
    method Login(user: UserLogin) returns (r: Result<seq<TweetRecord>, ApiError>)
      requires UserLoginViolations(user) == []
      ensures r.Ok? <==> HasCredentials(users, user.email, user.password)
      ensures r.Ok? ==> r.value == tweets
      ensures r.Err? ==> r.error == WrongEmailOrPassword
    {
      var home := tweets;
      var people := users;
      for i := 0 to |people|
        invariant forall j | 0 <= j < i ::
          !(people[j].email == user.email && people[j].password == user.password)
      {
        var person := people[i];
        if person.email == user.email {
          if person.password == user.password {
            return Ok(home);
          }
        }
      }
      return Err(WrongEmailOrPassword);
    }

    /** GET /users: the user collection as stored. */
    method ShowAllUsers() returns (r: seq<UserRecord>)
      ensures r == users
      ensures Valid() ==> forall i | 0 <= i < |r| :: StoredUserValid(r[i])
    {
      var results := users;
      r := results;
    }

    /**
     * POST /users/{user_id}: the first stored row, in file order, whose e-mail equals the
     * request's. The request's user_id and the path's are not consulted.
     */
    method ShowAUser(user: UserBase) returns (r: Result<UserRecord, ApiError>)
      ensures r == FindByEmail(users, user.email)
      ensures Valid() && r.Ok? ==> StoredUserValid(r.value)
    {
      var people := users;
      for i := 0 to |people|
        invariant forall j | 0 <= j < i :: people[j].email != user.email
      {
        var us := people[i];
        if us.email == user.email {
          FindByEmailAt(people, user.email, i);
          return Ok(us);
        }
      }
      FindByEmailMissing(people, user.email);
      return Err(UserNotExists);
    }

    /** GET /: the tweet collection as stored. */
    method Home() returns (r: seq<TweetRecord>)
      ensures r == tweets
      ensures Valid() ==> forall i | 0 <= i < |r| :: StoredTweetValid(r[i])
    {
      var results := tweets;
      r := results;
    }

    /** POST /post: appends the converted tweet; the posting user is not looked up. */
    method Post(tweet: Tweet) returns (r: Tweet)
      requires TweetViolations(tweet) == []
      modifies this
      ensures old(Valid()) ==> Valid()
      ensures tweets == old(tweets) + [TweetRow(canon, tweet)]
      ensures users == old(users)
      ensures r == tweet
    {
      var results := tweets;
      var row := TweetRow(canon, tweet);
      AcceptedTweetStoredValid(canon, tweet);
      results := results + [row];
      tweets := results;
      r := tweet;
    }
  }
}
