/**
 * Request sequences from the repository's tests, and a few the serializers
 * make interesting, replayed against a fresh store: what each request
 * returns follows from the view contracts alone.
 */
module Scenarios {
  import opened Models
  import opened Fields
  import opened Views

  /**
   * The listing the tests create through the database layer: starting and
   * current bid 10.00, and the model defaults for the other fields (`active`
   * true), which is what a JSON body without them gives.
   */
  const TestListing := ListingInput("Test Listing", "This is a test listing.", 1000, 1000, None, None, None, false)

  // Each literal is cleaned in a lemma of its own: a proof that cleans
  // several literals at once is much costlier for the solver.

  /** The test username, which the serializer keeps as it is. */
  lemma TestUsernameIsClean()
    ensures CleanText("testuser", false) == Some("testuser")
  {
    CleanKeepsTrimmed("testuser", false);
  }

  /** The test email, which the serializer keeps as it is. */
  lemma TestEmailIsClean()
    ensures CleanText("testuser@example.com", true) == Some("testuser@example.com")
  {
    CleanKeepsTrimmed("testuser@example.com", true);
  }

  /** The test password, which the serializer keeps as it is. */
  lemma TestPasswordIsClean()
    ensures CleanText("testpass", false) == Some("testpass")
  {
    CleanKeepsTrimmed("testpass", false);
  }

  /** The test account's fields, which the serializer keeps as they are. */
  lemma TestAccountIsClean()
    ensures CleanText("testuser", false) == Some("testuser")
    ensures CleanText("testuser@example.com", true) == Some("testuser@example.com")
    ensures CleanText("testpass", false) == Some("testpass")
  {
    TestUsernameIsClean();
    TestEmailIsClean();
    TestPasswordIsClean();
  }

  /** The test listing's name, which the serializer keeps as it is. */
  lemma TestListingNameIsClean()
    ensures CleanText("Test Listing", false) == Some("Test Listing")
  {
    CleanKeepsTrimmed("Test Listing", false);
  }

  /** The test listing's description, which the serializer keeps as it is. */
  lemma TestListingDescriptionIsClean()
    ensures CleanText("This is a test listing.", false) == Some("This is a test listing.")
  {
    CleanKeepsTrimmed("This is a test listing.", false);
  }

  /** The test listing passes the listing serializer unchanged. */
  lemma TestListingIsClean()
    ensures InputFits(TestListing)
  {
    TestListingNameIsClean();
    TestListingDescriptionIsClean();
  }

  /** The test account registers on an empty store. */
  lemma TestAccountIsAccepted()
    ensures RegistrationAccepted("testuser", "testuser@example.com", "testpass", map[])
    ensures Strip("testuser") == "testuser" && Strip("testpass") == "testpass"
  {
    TestAccountIsClean();
  }

  /** The comment serializer refuses an empty text and a text of spaces only. */
  lemma BlankCommentsAreRefused()
    ensures !CommentAccepted("") && !CommentAccepted("   ")
  {
    assert AllSpace("   ");
  }

  /** The comment serializer accepts a padded text, which it strips. */
  lemma PaddedCommentIsStripped()
    ensures CommentAccepted("  " + "This is a test comment." + " ")
    ensures Strip("  " + "This is a test comment." + " ") == "This is a test comment."
  {
    CleanPadded("  ", "This is a test comment.", " ", false);
  }

  /** A fresh store holding only the test account, registered with the intended view. */
  method RegisterTestAccount() returns (m: Marketplace, user: User, key: TokenKey)
    ensures fresh(m) && m.Valid()
    ensures m.users == map["testuser" := user] && user.password == SetPassword("testpass")
    ensures m.tokens == map[user.id := key]
    ensures m.listings == map[] && m.bids == [] && m.comments == []
  {
    m := new Marketplace();
    TestAccountIsAccepted();
    var r := m.Register("testuser", "testuser@example.com", "testpass");
    user, key := r.value.0, r.value.1;
  }

  /** A fresh store holding one registered user and one listing of theirs priced 10.00. */
  method SetUp(now: Instant) returns (m: Marketplace, user: UserId, pk: ListingId)
    ensures fresh(m) && m.Valid() && m.IsPrincipal(Some(user))
    ensures pk in m.listings && m.listings[pk].currentBid == 1000
    ensures m.bids == [] && m.comments == []
  {
    var owner, key;
    m, owner, key := RegisterTestAccount();
    user := owner.id;
    assert m.users["testuser"].id == user;
    TestListingIsClean();
    var created := m.CreateListing(Some(user), TestListing, now);
    pk := created.value.id;
  }

  /**
   * On a listing whose current bid is 10.00, an anonymous bid is refused,
   * a bid of 5.00 is rejected with the literal message, and a bid of 20.00
   * is accepted and becomes the current bid.
   */
  method BidCreateScenario(now: Instant) returns (anonymous: Result<Bid>, low: Result<Bid>, high: Result<Bid>, price: Cents)
    ensures anonymous == Err(NotAuthenticated)
    ensures low == Err(Invalid("Bid amount must be greater than current bid."))
    ensures high.Ok? && high.value.amount == 2000 && high.value.id == 1
    ensures price == 2000
  {
    var m, user, pk := SetUp(now);
    anonymous := m.PlaceBid(None, pk, 2000, now);
    low := m.PlaceBid(Some(user), pk, 500, now);
    high := m.PlaceBid(Some(user), pk, 2000, now);
    price := m.listings[pk].currentBid;
  }

  /**
   * With the intended Register and Login, logging in twice after
   * registration returns the token created at registration both times.
   */
  method RepeatedLoginScenario() returns (registered: TokenKey, first: Result<(User, TokenKey)>, second: Result<(User, TokenKey)>)
    ensures first.Ok? && first.value.1 == registered
    ensures second.Ok? && second.value.1 == registered
  {
    var m, user;
    m, user, registered := RegisterTestAccount();
    assert m.users["testuser"] == user;
    first := m.Login("testuser", "testpass");
    second := m.Login("testuser", "testpass");
  }

  /** A wrong password and an unknown username both fail with "bad request". */
  method FailedLoginScenario() returns (wrongPassword: Result<(User, TokenKey)>, unknown: Result<(User, TokenKey)>)
    ensures wrongPassword == Err(BadRequest("bad request"))
    ensures unknown == Err(BadRequest("bad request"))
  {
    var m, user, _ := RegisterTestAccount();
    CheckPasswordAcceptsOnlyTheSetSecret("testpass", "wrongpass");
    assert "nobody" !in m.users;
    wrongPassword := m.Login("testuser", "wrongpass");
    unknown := m.Login("nobody", "testpass");
  }

  /**
   * With the intended Register and Login, a password registered with
   * surrounding spaces is stored stripped, so logging in with the password
   * exactly as registered fails and logging in with the stripped password
   * succeeds.
   */
  method PaddedPasswordScenario() returns (asRegistered: Result<(User, TokenKey)>, stripped: Result<(User, TokenKey)>)
    ensures asRegistered == Err(BadRequest("bad request"))
    ensures stripped.Ok?
  {
    var m := new Marketplace();
    TestAccountIsAccepted();
    CleanPadded(" ", "testpass", " ", false);
    var r := m.Register("testuser", "testuser@example.com", " " + "testpass" + " ");
    assert m.users["testuser"] == r.value.0 && r.value.0.password == SetPassword("testpass");
    CheckPasswordAcceptsOnlyTheSetSecret("testpass", " " + "testpass" + " ");
    asRegistered := m.Login("testuser", " " + "testpass" + " ");
    stripped := m.Login("testuser", "testpass");
  }

  /**
   * The account requests as written: registration saves the user with a
   * hashed password but answers with a server error and creates no token;
   * a later login answers with a server error too, but the token it created
   * stays stored.
   */
  method AsWrittenAccountScenario() returns (registered: Result<(User, TokenKey)>, login: Result<(User, TokenKey)>, hasToken: bool)
    ensures registered == Err(ServerError) && login == Err(ServerError)
    ensures hasToken
  {
    var m := new Marketplace();
    TestAccountIsAccepted();
    registered := m.RegisterAsWritten("testuser", "testuser@example.com", "testpass");
    assert m.tokens == map[];
    var user := m.users["testuser"];
    assert user.password == SetPassword("testpass");
    login := m.LoginAsWritten("testuser", "testpass");
    hasToken := user.id in m.tokens;
  }

  /**
   * Registration as written with a username that has a leading space: the
   * user is saved under the stripped name, but the view looks up the name
   * as submitted, finds nothing and answers with a server error, leaving
   * the password unhashed, so no later login can succeed.
   */
  method PaddedUsernameAsWrittenScenario() returns (registered: Result<(User, TokenKey)>, login: Result<(User, TokenKey)>)
    ensures registered == Err(ServerError)
    ensures login == Err(BadRequest("bad request"))
  {
    var m := new Marketplace();
    TestAccountIsAccepted();
    CleanPadded(" ", "testuser", [], false);
    registered := m.RegisterAsWritten(" " + "testuser" + [], "testuser@example.com", "testpass");
    assert m.users["testuser"].password == Unhashed("testpass");
    CheckPasswordAcceptsOnlyTheSetSecret("testpass", "testpass");
    login := m.LoginAsWritten("testuser", "testpass");
  }

  /**
   * An empty comment and a comment of spaces only are both refused by the
   * serializer, so the view's own "must not be empty" message never comes
   * back; a padded comment is stored stripped.
   */
  method CommentScenario(now: Instant) returns (empty: Result<Comment>, spaces: Result<Comment>, text: Result<Comment>, stored: string)
    ensures empty == Err(Malformed) && spaces == Err(Malformed)
    ensures text.Ok? && stored == "This is a test comment."
  {
    var m, user, pk := SetUp(now);
    BlankCommentsAreRefused();
    PaddedCommentIsStripped();
    empty := m.AddComment(Some(user), pk, "", now);
    spaces := m.AddComment(Some(user), pk, "   ", now);
    text := m.AddComment(Some(user), pk, "  " + "This is a test comment." + " ", now);
    stored := m.comments[0].text;
  }
}
