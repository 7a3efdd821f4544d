/**
 * A client of the handlers, proved from their contracts alone: what a sequence of requests
 * against fresh collections observes.
 */
module Scenario {
  import opened Wrappers
  import opened Models
  import opened Records
  import opened Api

  /**
   * Register `first`, then `second` under the same e-mail, then post `t`:
   * - the second registration is accepted and stored too, yet the lookup by e-mail still
   *   returns the first row;
   * - a password that neither registration used is refused with status 400, and either
   *   registration's password is accepted, which returns the tweets stored so far;
   * - after the post the feed holds exactly the converted tweet, and listing the users
   *   twice gives the same rows.
   */
  method DuplicateSignupThenPost(c: Canon, first: UserRegister, second: UserRegister, wrong: string, t: Tweet)
    returns (found: Result<UserRecord, ApiError>,
             refused: Result<seq<TweetRecord>, ApiError>,
             acceptedSecond: Result<seq<TweetRecord>, ApiError>,
             feed: seq<TweetRecord>,
             listedTwice: (seq<UserRecord>, seq<UserRecord>))
    requires UserRegisterViolations(first) == [] && UserRegisterViolations(second) == []
    requires second.email == first.email
    requires ValidPassword(wrong) && wrong != first.password && wrong != second.password
    requires TweetViolations(t) == []
    ensures found == Ok(UserRow(c, first))
    ensures refused == Err(WrongEmailOrPassword) && refused.error.Status() == 400
    ensures acceptedSecond == Ok([])
    ensures feed == [TweetRow(c, t)]
    ensures listedTwice.0 == listedTwice.1 == [UserRow(c, first), UserRow(c, second)]
    ensures CountWithEmail(listedTwice.0, first.email) >= 2
  {
    var store := new Store(c);
    var _ := store.Signup(first);
    var _ := store.Signup(second);
    assert store.users == [UserRow(c, first)] + [UserRow(c, second)];
    FindByEmailAfterAppend([UserRow(c, first)], UserRow(c, second), first.email);
    DuplicateEmailIsStored([UserRow(c, first)], UserRow(c, second));

    found := store.ShowAUser(UserBase(first.userId, first.email));

    CredentialsAfterAppend([UserRow(c, first)], UserRow(c, second), first.email, wrong);
    CredentialsAfterAppend([], UserRow(c, first), first.email, wrong);
    assert [] + [UserRow(c, first)] == [UserRow(c, first)];
    refused := store.Login(UserLogin(first.userId, first.email, wrong));

    CredentialsAfterAppend([UserRow(c, first)], UserRow(c, second), second.email, second.password);
    acceptedSecond := store.Login(UserLogin(second.userId, second.email, second.password));

    var _ := store.Post(t);
    feed := store.Home();

    var once := store.ShowAllUsers();
    var twice := store.ShowAllUsers();
    listedTwice := (once, twice);
  }
}
