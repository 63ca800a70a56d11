/**
 * The API views of the auction marketplace over one store of users,
 * tokens, listings, bids and comments.
 *
 * Each write endpoint is one method, and follows the order in which the
 * framework handles the request: the caller must be authenticated (else
 * 403), the submitted fields must fit the model's bounds (else 400), the
 * listing named in the URL must exist (else 404), and only then does the
 * view's own rule decide. Submitted text passes through the serializer's
 * field first (`Fields.CleanText`): it is stripped, and a blank value is
 * refused unless the column allows blanks. The authenticated principal is a
 * parameter (`None` for an anonymous caller); the clock is the parameter
 * `now`.
 */
module Views {
  import opened Models
  import opened Fields

  datatype Error =
    | NotAuthenticated          // 403: anonymous caller on a write endpoint
    | NotFound                  // 404: no listing with the primary key in the URL
    | Malformed                 // 400: a submitted field is out of bounds, not a choice, or taken
    | Invalid(message: string)  // 400: the view's validation error, with its literal message
    | BadRequest(message: string) // 400: the login view's own failure response
    | ServerError               // 500: an exception the view does not catch

  datatype Result<+T> = Ok(value: T) | Err(error: Error)

  const BidTooLow := "Bid amount must be greater than current bid."
  const EmptyComment := "Comment must not be empty."
  const BadCredentials := "bad request"

  // ---------------------------------------------------------------------
  // The bidding rule

  /**
   * A bid is accepted only when strictly above the current bid; a tie loses.
   * The model compares exactly. The view compares a float with the stored
   * decimal, which is `Floats.FloatExceeds`; the two agree on every pair
   * of different amounts.
   */
  predicate Outbids(amount: Cents, current: Cents)
  {
    amount > current
  }

  /** The listing's current bid after one bid attempt reaches the comparison. */
  function NextPrice(current: Cents, amount: Cents): (next: Cents)
    ensures next >= current
    ensures next != current <==> Outbids(amount, current)
    ensures next == current || next == amount
  {
    if Outbids(amount, current) then amount else current
  }

  /** The current bid after a series of attempts, one after the other. */
  function FinalPrice(start: Cents, attempts: seq<Cents>): (price: Cents)
    decreases |attempts|
  {
    if attempts == [] then start else FinalPrice(NextPrice(start, attempts[0]), attempts[1..])
  }

  /** The amounts among `attempts` that are accepted, in order. */
  function AcceptedAmounts(start: Cents, attempts: seq<Cents>): (amounts: seq<Cents>)
    decreases |attempts|
  {
    if attempts == [] then []
    else if Outbids(attempts[0], start) then [attempts[0]] + AcceptedAmounts(attempts[0], attempts[1..])
    else AcceptedAmounts(start, attempts[1..])
  }

  /**
   * After any series of attempts the current bid is the highest of the
   * starting value and all attempted amounts: it never went down.
   */
  lemma {:induction false} FinalPriceIsHighest(start: Cents, attempts: seq<Cents>)
    ensures FinalPrice(start, attempts) >= start
    ensures forall i :: 0 <= i < |attempts| ==> FinalPrice(start, attempts) >= attempts[i]
    ensures FinalPrice(start, attempts) == start || FinalPrice(start, attempts) in attempts
    decreases |attempts|
  {
    if attempts != [] {
      var next := NextPrice(start, attempts[0]);
      FinalPriceIsHighest(next, attempts[1..]);
      forall i | 0 < i < |attempts|
        ensures FinalPrice(start, attempts) >= attempts[i]
      {
        assert attempts[i] == attempts[1..][i - 1];
      }
    }
  }

  /**
   * The accepted amounts rise strictly, each is above the starting value,
   * and the last of them is the final current bid.
   */
  lemma {:induction false} AcceptedAmountsRise(start: Cents, attempts: seq<Cents>)
    ensures forall i :: 0 <= i < |AcceptedAmounts(start, attempts)| ==> AcceptedAmounts(start, attempts)[i] > start
    ensures forall i, j :: 0 <= i < j < |AcceptedAmounts(start, attempts)| ==>
      AcceptedAmounts(start, attempts)[i] < AcceptedAmounts(start, attempts)[j]
    ensures AcceptedAmounts(start, attempts) == [] ==> FinalPrice(start, attempts) == start
    ensures AcceptedAmounts(start, attempts) != [] ==>
      FinalPrice(start, attempts) == AcceptedAmounts(start, attempts)[|AcceptedAmounts(start, attempts)| - 1]
    decreases |attempts|
  {
    if attempts != [] {
      var a := attempts[0];
      if Outbids(a, start) {
        AcceptedAmountsRise(a, attempts[1..]);
        var rest := AcceptedAmounts(a, attempts[1..]);
        assert AcceptedAmounts(start, attempts) == [a] + rest;
        forall i, j | 0 <= i < j < |[a] + rest|
          ensures ([a] + rest)[i] < ([a] + rest)[j]
        {
          if i > 0 {
            assert ([a] + rest)[i] == rest[i - 1];
          }
          assert ([a] + rest)[j] == rest[j - 1];
        }
      } else {
        AcceptedAmountsRise(start, attempts[1..]);
      }
    }
  }

  // ---------------------------------------------------------------------
  // The token table

  /**
   * Get-or-create on the per-user token table: an existing token is
   * returned untouched, otherwise `newKey` is stored for the user.
   */
  function GetOrCreateToken(tokens: map<UserId, TokenKey>, user: UserId, newKey: TokenKey): (r: (map<UserId, TokenKey>, TokenKey))
    ensures user in r.0 && r.0[user] == r.1
    ensures r.0.Keys == tokens.Keys + {user}
    ensures forall u :: u in tokens ==> r.0[u] == tokens[u]
    ensures user !in tokens ==> r.1 == newKey
  {
    if user in tokens then (tokens, tokens[user]) else (tokens[user := newKey], newKey)
  }

  /** A second get-or-create for the same user changes nothing and returns the same key. */
  lemma GetOrCreateTokenIdempotent(tokens: map<UserId, TokenKey>, user: UserId, newKey: TokenKey, laterKey: TokenKey)
    ensures GetOrCreateToken(GetOrCreateToken(tokens, user, newKey).0, user, laterKey) == GetOrCreateToken(tokens, user, newKey)
  {
  }

  // ---------------------------------------------------------------------
  // Listing creation input

  /**
   * The writable fields of a submitted listing; absent optional fields take
   * their defaults. `formEncoded` says whether the body was sent as form
   * data, where a missing boolean reads as false, rather than as JSON.
   */
  datatype ListingInput = ListingInput(
    name: string,
    description: string,
    startingBid: Cents,
    currentBid: Cents,
    imageUrl: Option<string>,
    active: Option<bool>,
    category: Option<string>,
    formEncoded: bool)

  /** The image URL as the serializer's field passes it on: stripped, blank allowed. */
  function StrippedUrl(u: Option<string>): (r: Option<string>)
    ensures r.Some? <==> u.Some?
    ensures r.Some? ==> IsTrimmed(r.value) && |r.value| <= |u.value|
  {
    if u.None? then None else StripSplits(u.value); Some(Strip(u.value))
  }

  /** The listing serializer accepts the submitted fields. */
  predicate InputFits(input: ListingInput)
  {
    && CleanText(input.name, false).Some?
    && CleanText(input.description, false).Some?
    && (input.imageUrl.Some? ==> CleanText(input.imageUrl.value, true).Some?)
    && (input.category.Some? ==> ParseCategory(input.category.value).Some?)
    && FitsAmount(input.startingBid)
    && FitsAmount(input.currentBid)
    && ListingTextFits(Strip(input.name), Strip(input.description), StrippedUrl(input.imageUrl))
  }

  /** The listing row that saving `input` creates, stamped with its owner and creation time. */
  function BuildListing(id: ListingId, owner: UserId, input: ListingInput, now: Instant): (r: Option<Listing>)
    ensures r.Some? <==> InputFits(input)
    ensures r.Some? ==> ListingFieldsFit(r.value)
    ensures r.Some? ==> && r.value.id == id && r.value.owner == owner && r.value.createdAt == now
                        && r.value.name == Strip(input.name) && r.value.description == Strip(input.description)
                        && r.value.startingBid == input.startingBid && r.value.currentBid == input.currentBid
                        && r.value.imageUrl == StrippedUrl(input.imageUrl)
    ensures r.Some? ==> r.value.name != [] && IsTrimmed(r.value.name)
    ensures r.Some? ==> r.value.description != [] && IsTrimmed(r.value.description)
    ensures r.Some? && input.active.Some? ==> r.value.active == input.active.value
    ensures r.Some? && input.active.None? ==> r.value.active == !input.formEncoded
    ensures r.Some? ==> (if input.category.None? then r.value.category == DefaultCategory
                         else StoredValue(r.value.category) == input.category.value)
  {
    if !InputFits(input) then None
    else
      StripIsTrimmed(input.name);
      StripIsTrimmed(input.description);
      var category := if input.category.None? then DefaultCategory else ParseCategory(input.category.value).value;
      var active := if input.active.Some? then input.active.value else !input.formEncoded;
      Some(Listing(id, owner, Strip(input.name), Strip(input.description), input.startingBid, input.currentBid,
                   now, StrippedUrl(input.imageUrl), active, category))
  }

  // ---------------------------------------------------------------------
  // Registration and comment input

  /**
   * The user serializer accepts a registration: the username and password
   * are not blank, the username is not taken once stripped, and the
   * stripped username and email fit their columns.
   */
  predicate RegistrationAccepted(username: string, email: string, password: string, users: map<string, User>)
  {
    && CleanText(username, false).Some?
    && CleanText(email, true).Some?
    && CleanText(password, false).Some?
    && UserFieldsFit(Strip(username), Strip(email))
    && Strip(username) !in users
  }

  /** The comment serializer accepts a text: not blank, and within the column once stripped. */
  predicate CommentAccepted(text: string)
  {
    CleanText(text, false).Some? && CommentTextFits(Strip(text))
  }

  // ---------------------------------------------------------------------
  // Consistency of the tables

  /** The ids of the registered users. */
  ghost function UserIdsOf(users: map<string, User>): (ids: set<UserId>)
  {
    set name | name in users :: users[name].id
  }

  /**
   * Users are keyed by their unique username, have distinct ids below
   * `nextId` and fit the username and email bounds; every username is
   * already stripped, as the serializer leaves it.
   */
  ghost predicate UsersConsistent(users: map<string, User>, nextId: nat)
  {
    && 0 < nextId
    && (forall name :: name in users ==>
          && users[name].username == name && 0 < users[name].id < nextId
          && UserFieldsFit(name, users[name].email))
    && (forall name {:trigger IsTrimmed(name)} :: name in users ==> IsTrimmed(name))
    && (forall a, b :: a in users && b in users && a != b ==> users[a].id != users[b].id)
  }

  /** Tokens belong to registered users, and no two users share a key. */
  ghost predicate TokensConsistent(tokens: map<UserId, TokenKey>, nextKey: TokenKey, userIds: set<UserId>)
  {
    && (forall u :: u in tokens ==> u in userIds && tokens[u] < nextKey)
    && (forall u, v :: u in tokens && v in tokens && u != v ==> tokens[u] != tokens[v])
  }

  /** Listings are keyed by their id, fit their field bounds and are owned by registered users. */
  ghost predicate ListingsConsistent(listings: map<ListingId, Listing>, nextId: nat, userIds: set<UserId>)
  {
    && 0 < nextId
    && forall k :: k in listings ==>
         && listings[k].id == k && 0 < k < nextId
         && ListingFieldsFit(listings[k])
         && listings[k].owner in userIds
  }

  /**
   * Every bid fits the amount bounds and is at most its listing's current
   * bid, and the bids on one listing rise strictly in insertion order.
   */
  ghost predicate BidsConsistent(bids: seq<Bid>, listings: map<ListingId, Listing>, userIds: set<UserId>)
  {
    && (forall i :: 0 <= i < |bids| ==>
          && bids[i].id == i + 1
          && bids[i].listing in listings
          && bids[i].bidder in userIds
          && FitsAmount(bids[i].amount)
          && bids[i].amount <= listings[bids[i].listing].currentBid)
    && (forall i, j :: 0 <= i < j < |bids| && bids[i].listing == bids[j].listing ==>
          bids[i].amount < bids[j].amount)
  }

  /** Comments are non-empty, fit their bound and refer to existing listings and users. */
  ghost predicate CommentsConsistent(comments: seq<Comment>, listingIds: set<ListingId>, userIds: set<UserId>)
  {
    forall i :: 0 <= i < |comments| ==>
      && comments[i].id == i + 1
      && comments[i].listing in listingIds
      && comments[i].commentor in userIds
      && 0 < |comments[i].text| && CommentTextFits(comments[i].text)
  }

  /** The whole store is consistent: each table, and the references between them. */
  ghost predicate StoreConsistent(
      users: map<string, User>, tokens: map<UserId, TokenKey>, listings: map<ListingId, Listing>,
      bids: seq<Bid>, comments: seq<Comment>, nextUserId: nat, nextListingId: nat, nextTokenKey: TokenKey)
  {
    && UsersConsistent(users, nextUserId)
    && TokensConsistent(tokens, nextTokenKey, UserIdsOf(users))
    && ListingsConsistent(listings, nextListingId, UserIdsOf(users))
    && BidsConsistent(bids, listings, UserIdsOf(users))
    && CommentsConsistent(comments, listings.Keys, UserIdsOf(users))
  }

  /**
   * A new user under a fresh id and an unused, trimmed username, within
   * the username and email bounds, keeps the store consistent, and adds
   * exactly its id to the registered ids.
   */
  lemma UserAddedKeepsConsistent(
      users: map<string, User>, tokens: map<UserId, TokenKey>, listings: map<ListingId, Listing>,
      bids: seq<Bid>, comments: seq<Comment>, nextUserId: nat, nextListingId: nat, nextTokenKey: TokenKey,
      user: User)
    requires StoreConsistent(users, tokens, listings, bids, comments, nextUserId, nextListingId, nextTokenKey)
    requires user.username !in users && IsTrimmed(user.username) && user.id == nextUserId
    requires UserFieldsFit(user.username, user.email)
    ensures user.id !in UserIdsOf(users)
    ensures UserIdsOf(users[user.username := user]) == UserIdsOf(users) + {user.id}
    ensures StoreConsistent(users[user.username := user], tokens, listings, bids, comments,
                            nextUserId + 1, nextListingId, nextTokenKey)
  {
    UserIdsGrow(users, user);
    UsersTableGrows(users, nextUserId, user);
    var ids := UserIdsOf(users);
    var ids' := UserIdsOf(users[user.username := user]);
    MoreUsersKeepReferences(tokens, listings, bids, comments, nextListingId, nextTokenKey, ids, ids');
  }

  /** Saving a user under an unused username adds exactly its id to the registered ids. */
  lemma UserIdsGrow(users: map<string, User>, user: User)
    requires user.username !in users
    ensures UserIdsOf(users[user.username := user]) == UserIdsOf(users) + {user.id}
  {
    var users' := users[user.username := user];
    forall x | x in UserIdsOf(users)
      ensures x in UserIdsOf(users')
    {
      var n :| n in users && users[n].id == x;
      assert users'[n] == users[n];
    }
    assert users'[user.username].id == user.id;
  }

  /** The users table stays consistent when a stripped, unused, in-bounds username gets the next id. */
  lemma UsersTableGrows(users: map<string, User>, nextUserId: nat, user: User)
    requires UsersConsistent(users, nextUserId)
    requires user.username !in users && IsTrimmed(user.username) && user.id == nextUserId
    requires UserFieldsFit(user.username, user.email)
    ensures user.id !in UserIdsOf(users)
    ensures UsersConsistent(users[user.username := user], nextUserId + 1)
  {
  }

  /** References to registered users stay valid when the set of registered ids grows. */
  lemma MoreUsersKeepReferences(
      tokens: map<UserId, TokenKey>, listings: map<ListingId, Listing>, bids: seq<Bid>, comments: seq<Comment>,
      nextListingId: nat, nextTokenKey: TokenKey, ids: set<UserId>, ids': set<UserId>)
    requires ids <= ids'
    requires TokensConsistent(tokens, nextTokenKey, ids)
    requires ListingsConsistent(listings, nextListingId, ids)
    requires BidsConsistent(bids, listings, ids)
    requires CommentsConsistent(comments, listings.Keys, ids)
    ensures TokensConsistent(tokens, nextTokenKey, ids')
    ensures ListingsConsistent(listings, nextListingId, ids')
    ensures BidsConsistent(bids, listings, ids')
    ensures CommentsConsistent(comments, listings.Keys, ids')
  {
  }

  /** Replacing a user's stored credential keeps the store consistent and the registered ids. */
  lemma CredentialChangeKeepsConsistent(
      users: map<string, User>, tokens: map<UserId, TokenKey>, listings: map<ListingId, Listing>,
      bids: seq<Bid>, comments: seq<Comment>, nextUserId: nat, nextListingId: nat, nextTokenKey: TokenKey,
      name: string, credential: Credential)
    requires StoreConsistent(users, tokens, listings, bids, comments, nextUserId, nextListingId, nextTokenKey)
    requires name in users
    ensures UserIdsOf(users[name := users[name].(password := credential)]) == UserIdsOf(users)
    ensures StoreConsistent(users[name := users[name].(password := credential)], tokens, listings, bids, comments,
                            nextUserId, nextListingId, nextTokenKey)
  {
    var users' := users[name := users[name].(password := credential)];
    forall x | x in UserIdsOf(users)
      ensures x in UserIdsOf(users')
    {
      var n :| n in users && users[n].id == x;
      assert users'[n].id == x;
    }
    forall x | x in UserIdsOf(users')
      ensures x in UserIdsOf(users)
    {
      var n :| n in users' && users'[n].id == x;
      assert users[n].id == x;
    }
  }

  /** A first token for a registered user, under the next key, keeps the keys distinct. */
  lemma TokenAddedKeepsConsistent(
      users: map<string, User>, tokens: map<UserId, TokenKey>, listings: map<ListingId, Listing>,
      bids: seq<Bid>, comments: seq<Comment>, nextUserId: nat, nextListingId: nat, nextTokenKey: TokenKey,
      user: UserId)
    requires StoreConsistent(users, tokens, listings, bids, comments, nextUserId, nextListingId, nextTokenKey)
    requires user in UserIdsOf(users) && user !in tokens
    ensures nextTokenKey !in tokens.Values
    ensures StoreConsistent(users, tokens[user := nextTokenKey], listings, bids, comments,
                            nextUserId, nextListingId, nextTokenKey + 1)
  {
  }

  /** A new listing under a fresh id, owned by a registered user, keeps the store consistent. */
  lemma ListingAddedKeepsConsistent(
      users: map<string, User>, tokens: map<UserId, TokenKey>, listings: map<ListingId, Listing>,
      bids: seq<Bid>, comments: seq<Comment>, nextUserId: nat, nextListingId: nat, nextTokenKey: TokenKey,
      listing: Listing)
    requires StoreConsistent(users, tokens, listings, bids, comments, nextUserId, nextListingId, nextTokenKey)
    requires listing.id == nextListingId && ListingFieldsFit(listing) && listing.owner in UserIdsOf(users)
    ensures listing.id !in listings
    ensures StoreConsistent(users, tokens, listings[listing.id := listing], bids, comments,
                            nextUserId, nextListingId + 1, nextTokenKey)
  {
    var listings' := listings[listing.id := listing];
    forall i | 0 <= i < |bids|
      ensures bids[i].listing in listings' && listings'[bids[i].listing] == listings[bids[i].listing]
    {
      assert bids[i].listing in listings;
    }
  }

  /**
   * An accepted bid, appended with its amount as the new current bid, keeps
   * the store consistent: every bid stays at most its listing's current bid
   * and the bids on one listing keep rising.
   */
  lemma AcceptedBidKeepsConsistent(
      users: map<string, User>, tokens: map<UserId, TokenKey>, listings: map<ListingId, Listing>,
      bids: seq<Bid>, comments: seq<Comment>, nextUserId: nat, nextListingId: nat, nextTokenKey: TokenKey,
      bid: Bid)
    requires StoreConsistent(users, tokens, listings, bids, comments, nextUserId, nextListingId, nextTokenKey)
    requires bid.id == |bids| + 1 && bid.listing in listings && bid.bidder in UserIdsOf(users) && FitsAmount(bid.amount)
    requires Outbids(bid.amount, listings[bid.listing].currentBid)
    ensures StoreConsistent(users, tokens, listings[bid.listing := listings[bid.listing].(currentBid := bid.amount)],
                            bids + [bid], comments, nextUserId, nextListingId, nextTokenKey)
  {
    var bids', listings' := bids + [bid], listings[bid.listing := listings[bid.listing].(currentBid := bid.amount)];
    var userIds := UserIdsOf(users);
    assert listings'.Keys == listings.Keys;
    assert ListingsConsistent(listings', nextListingId, userIds);
    assert BidsConsistent(bids', listings', userIds) by {
      forall i | 0 <= i < |bids|
        ensures bids'[i] == bids[i] && bids[i].amount <= listings'[bids[i].listing].currentBid
      {
      }
      forall i, j | 0 <= i < j < |bids'| && bids'[i].listing == bids'[j].listing
        ensures bids'[i].amount < bids'[j].amount
      {
        if j < |bids| {
          assert bids'[j] == bids[j];
        }
      }
    }
  }

  /** A non-empty comment on an existing listing, appended, keeps the store consistent. */
  lemma CommentAddedKeepsConsistent(
      users: map<string, User>, tokens: map<UserId, TokenKey>, listings: map<ListingId, Listing>,
      bids: seq<Bid>, comments: seq<Comment>, nextUserId: nat, nextListingId: nat, nextTokenKey: TokenKey,
      comment: Comment)
    requires StoreConsistent(users, tokens, listings, bids, comments, nextUserId, nextListingId, nextTokenKey)
    requires comment.id == |comments| + 1 && comment.listing in listings && comment.commentor in UserIdsOf(users)
    requires 0 < |comment.text| && CommentTextFits(comment.text)
    ensures StoreConsistent(users, tokens, listings, bids, comments + [comment],
                            nextUserId, nextListingId, nextTokenKey)
  {
    var comments' := comments + [comment];
    forall i | 0 <= i < |comments'|
      ensures comments'[i] == if i < |comments| then comments[i] else comment
    {
    }
  }

  /** Updating a key twice leaves only the second value. */
  lemma UpdateTwice<K, V>(m: map<K, V>, k: K, first: V, second: V)
    ensures m[k := first][k := second] == m[k := second]
  {
  }

  // ---------------------------------------------------------------------
  // The store

  class Marketplace {
    /** Users by username (usernames are unique). */
    var users: map<string, User>
    /** The token table: at most one token per user. */
    var tokens: map<UserId, TokenKey>
    var listings: map<ListingId, Listing>
    /** Bids in insertion order; the id of the bid at index i is i + 1. */
    var bids: seq<Bid>
    /** Comments in insertion order; the id of the comment at index i is i + 1. */
    var comments: seq<Comment>
    var nextUserId: nat
    var nextListingId: nat
    var nextTokenKey: TokenKey

    /** The principal of a request is anonymous or a registered user. */
    ghost predicate IsPrincipal(caller: Option<UserId>)
      reads this
    {
      caller.Some? ==> caller.value in UserIdsOf(users)
    }

    ghost predicate Valid()
      reads this
    {
      StoreConsistent(users, tokens, listings, bids, comments, nextUserId, nextListingId, nextTokenKey)
    }

    constructor ()
      ensures Valid()
      ensures users == map[] && tokens == map[] && listings == map[] && bids == [] && comments == []
    {
      users, tokens, listings := map[], map[], map[];
      bids, comments := [], [];
      nextUserId, nextListingId, nextTokenKey := 1, 1, 1;
    }

    /**
     * Get-or-create of the user's token: an existing token is returned, and
     * otherwise a token under the next key is stored for the user.
     */
    method IssueToken(user: UserId) returns (key: TokenKey)
      requires Valid() && user in UserIdsOf(users)
      modifies this
      ensures Valid()
      ensures (tokens, key) == GetOrCreateToken(old(tokens), user, old(nextTokenKey))
      ensures user !in old(tokens) ==> key !in old(tokens).Values
      ensures user in old(tokens) ==> nextTokenKey == old(nextTokenKey)
      ensures users == old(users) && listings == old(listings) && bids == old(bids) && comments == old(comments)
      ensures nextUserId == old(nextUserId) && nextListingId == old(nextListingId)
    {
      var table := GetOrCreateToken(tokens, user, nextTokenKey);
      key := table.1;
      if user !in tokens {
        TokenAddedKeepsConsistent(users, tokens, listings, bids, comments, nextUserId, nextListingId, nextTokenKey, user);
        nextTokenKey := nextTokenKey + 1;
      }
      tokens := table.0;
    }

    /** Saves a new user, within the username and email bounds, under its username and the next id. */
    method AddUser(user: User)
      requires Valid() && user.username !in users && IsTrimmed(user.username) && user.id == nextUserId
      requires UserFieldsFit(user.username, user.email)
      modifies this
      ensures Valid()
      ensures users == old(users)[user.username := user] && nextUserId == old(nextUserId) + 1
      ensures user.id !in UserIdsOf(old(users)) && UserIdsOf(users) == UserIdsOf(old(users)) + {user.id}
      ensures tokens == old(tokens) && listings == old(listings) && bids == old(bids) && comments == old(comments)
      ensures nextListingId == old(nextListingId) && nextTokenKey == old(nextTokenKey)
    {
      UserAddedKeepsConsistent(users, tokens, listings, bids, comments, nextUserId, nextListingId, nextTokenKey, user);
      users := users[user.username := user];
      nextUserId := nextUserId + 1;
    }

    /** Replaces the stored credential of the user saved under `name`. */
    method SetCredential(name: string, credential: Credential)
      requires Valid() && name in users
      modifies this
      ensures Valid()
      ensures users == old(users)[name := old(users)[name].(password := credential)]
      ensures tokens == old(tokens) && listings == old(listings) && bids == old(bids) && comments == old(comments)
      ensures nextUserId == old(nextUserId) && nextListingId == old(nextListingId) && nextTokenKey == old(nextTokenKey)
    {
      CredentialChangeKeepsConsistent(users, tokens, listings, bids, comments, nextUserId, nextListingId, nextTokenKey,
                                      name, credential);
      users := users[name := users[name].(password := credential)];
    }

    /**
     * Registration as evidently intended: the serializer strips the fields
     * and rejects a blank username or password, an over-long username or
     * email and a taken username; otherwise the user is saved under the
     * stripped username, with the stripped password set through the
     * hashing primitive, and a fresh token is created for them.
     */
    method Register(username: string, email: string, password: string) returns (r: Result<(User, TokenKey)>)
      requires Valid()
      modifies this
      ensures Valid()
      ensures r.Ok? <==> RegistrationAccepted(username, email, password, old(users))
      ensures r.Err? ==> r.error == Malformed && unchanged(this)
      ensures r.Ok? ==>
        && r.value.0 == User(r.value.0.id, Strip(username), Strip(email), SetPassword(Strip(password)))
        && r.value.0.id !in UserIdsOf(old(users))
        && users == old(users)[Strip(username) := r.value.0]
        && r.value.1 !in old(tokens).Values
        && tokens == old(tokens)[r.value.0.id := r.value.1]
      ensures listings == old(listings) && bids == old(bids) && comments == old(comments)
      ensures nextListingId == old(nextListingId)
    {
      if !RegistrationAccepted(username, email, password, users) {
        return Err(Malformed);
      }
      var name := Strip(username);
      StripIsTrimmed(username);
      var user := User(nextUserId, name, Strip(email), SetPassword(Strip(password)));
      AddUser(user);
      assert user.id !in tokens;
      var key := IssueToken(user.id);
      r := Ok((user, key));
    }

    /**
     * Registration as written. The serializer saves the user with the
     * stripped password as given. The view then looks the user up by the
     * username exactly as submitted, which fails when stripping changed it;
     * otherwise it hashes the saved password. Reading the serializer's data
     * then fails, because the user serializer builds hyperlinks and has no
     * request to build them from, so no token is created and the response
     * is a server error.
     */
    method RegisterAsWritten(username: string, email: string, password: string) returns (r: Result<(User, TokenKey)>)
      requires Valid()
      modifies this
      ensures Valid()
      ensures r.Err?
      ensures !RegistrationAccepted(username, email, password, old(users)) ==> r.error == Malformed && unchanged(this)
      ensures RegistrationAccepted(username, email, password, old(users)) ==>
        && r.error == ServerError
        && old(nextUserId) !in UserIdsOf(old(users))
        && users == old(users)[Strip(username) := User(old(nextUserId), Strip(username), Strip(email),
                     if Strip(username) == username then SetPassword(Strip(password)) else Unhashed(Strip(password)))]
        && tokens == old(tokens)
      ensures listings == old(listings) && bids == old(bids) && comments == old(comments)
      ensures nextListingId == old(nextListingId)
    {
      if !RegistrationAccepted(username, email, password, users) {
        return Err(Malformed);
      }
      var name := Strip(username);
      StripIsTrimmed(username);
      var saved := User(nextUserId, name, Strip(email), Unhashed(Strip(password)));
      ghost var before := users;
      AddUser(saved);
      if username !in users {
        assert name != username;
        return Err(ServerError);
      }
      StripKeepsTrimmed(username);
      var hashed := SetPassword(users[username].password.raw);
      SetCredential(username, hashed);
      UpdateTwice(before, name, saved, saved.(password := hashed));
      r := Err(ServerError);
    }

    /**
     * Login as evidently intended: an unknown username or a password that
     * does not check fails with "bad request" and creates nothing; otherwise
     * the user's token is fetched, or created when the user has none.
     */
    method Login(username: string, password: string) returns (r: Result<(User, TokenKey)>)
      requires Valid()
      modifies this
      ensures Valid()
      ensures r.Ok? <==> username in old(users) && CheckPassword(old(users)[username].password, password)
      ensures r.Err? ==> r.error == BadRequest(BadCredentials) && unchanged(this)
      ensures r.Ok? ==>
        && r.value.0 == old(users)[username]
        && (tokens, r.value.1) == GetOrCreateToken(old(tokens), r.value.0.id, old(nextTokenKey))
      ensures r.Ok? && r.value.0.id in old(tokens) ==> r.value.1 == old(tokens)[r.value.0.id] && tokens == old(tokens)
      ensures users == old(users) && listings == old(listings) && bids == old(bids) && comments == old(comments)
      ensures nextUserId == old(nextUserId) && nextListingId == old(nextListingId)
    {
      if username !in users || !CheckPassword(users[username].password, password) {
        return Err(BadRequest(BadCredentials));
      }
      var user := users[username];
      assert user.id in UserIdsOf(users);
      var key := IssueToken(user.id);
      r := Ok((user, key));
    }

    /**
     * Login as written: the checks and the get-or-create of the token are
     * those of `Login`, and then reading the serializer's data fails for
     * want of a request, so the response is a server error with the token
     * already stored.
     */
    method LoginAsWritten(username: string, password: string) returns (r: Result<(User, TokenKey)>)
      requires Valid()
      modifies this
      ensures Valid()
      ensures r.Err?
      ensures !(username in old(users) && CheckPassword(old(users)[username].password, password)) ==>
        r.error == BadRequest(BadCredentials) && unchanged(this)
      ensures username in old(users) && CheckPassword(old(users)[username].password, password) ==>
        && r.error == ServerError
        && tokens == GetOrCreateToken(old(tokens), old(users)[username].id, old(nextTokenKey)).0
      ensures users == old(users) && listings == old(listings) && bids == old(bids) && comments == old(comments)
      ensures nextUserId == old(nextUserId) && nextListingId == old(nextListingId)
    {
      if username !in users || !CheckPassword(users[username].password, password) {
        return Err(BadRequest(BadCredentials));
      }
      var user := users[username];
      assert user.id in UserIdsOf(users);
      var _ := IssueToken(user.id);
      r := Err(ServerError);
    }

    /** Listing creation: the saved listing's owner is the calling user. */
    method CreateListing(caller: Option<UserId>, input: ListingInput, now: Instant) returns (r: Result<Listing>)
      requires Valid() && IsPrincipal(caller)
      modifies this
      ensures Valid()
      ensures caller.None? ==> r == Err(NotAuthenticated)
      ensures caller.Some? && !InputFits(input) ==> r == Err(Malformed)
      ensures r.Ok? <==> caller.Some? && InputFits(input)
      ensures r.Err? ==> unchanged(this)
      ensures r.Ok? ==>
        && r.value.owner == caller.value
        && r.value.id !in old(listings)
        && Some(r.value) == BuildListing(r.value.id, caller.value, input, now)
        && listings == old(listings)[r.value.id := r.value]
      ensures users == old(users) && tokens == old(tokens) && bids == old(bids) && comments == old(comments)
      ensures nextUserId == old(nextUserId) && nextTokenKey == old(nextTokenKey)
    {
      if caller.None? {
        return Err(NotAuthenticated);
      }
      var built := BuildListing(nextListingId, caller.value, input, now);
      if built.None? {
        return Err(Malformed);
      }
      var listing := built.value;
      ListingAddedKeepsConsistent(users, tokens, listings, bids, comments, nextUserId, nextListingId, nextTokenKey, listing);
      listings := listings[listing.id := listing];
      nextListingId := nextListingId + 1;
      r := Ok(listing);
    }

    /**
     * Bid placement: the bid is saved and becomes the listing's current bid
     * exactly when its amount is strictly greater than the current bid;
     * otherwise the literal validation message is returned and nothing
     * changes.
     */
    method PlaceBid(caller: Option<UserId>, pk: ListingId, amount: Cents, now: Instant) returns (r: Result<Bid>)
      requires Valid() && IsPrincipal(caller)
      modifies this
      ensures Valid()
      ensures caller.None? ==> r == Err(NotAuthenticated)
      ensures caller.Some? && !FitsAmount(amount) ==> r == Err(Malformed)
      ensures caller.Some? && FitsAmount(amount) && pk !in old(listings) ==> r == Err(NotFound)
      ensures caller.Some? && FitsAmount(amount) && pk in old(listings) && !Outbids(amount, old(listings[pk].currentBid)) ==>
        r == Err(Invalid(BidTooLow))
      ensures r.Ok? <==> caller.Some? && FitsAmount(amount) && pk in old(listings) && Outbids(amount, old(listings[pk].currentBid))
      ensures r.Err? ==> unchanged(this)
      ensures r.Ok? ==>
        && r.value == Bid(|old(bids)| + 1, pk, caller.value, amount, now)
        && bids == old(bids) + [r.value]
        && listings == old(listings)[pk := old(listings[pk]).(currentBid := amount)]
      ensures caller.Some? && FitsAmount(amount) && pk in old(listings) ==>
        pk in listings && listings[pk].currentBid == NextPrice(old(listings[pk].currentBid), amount)
      ensures users == old(users) && tokens == old(tokens) && comments == old(comments)
      ensures nextUserId == old(nextUserId) && nextListingId == old(nextListingId) && nextTokenKey == old(nextTokenKey)
    {
      if caller.None? {
        return Err(NotAuthenticated);
      }
      if !FitsAmount(amount) {
        return Err(Malformed);
      }
      if pk !in listings {
        return Err(NotFound);
      }
      var listing := listings[pk];
      if Outbids(amount, listing.currentBid) {
        var bid := Bid(|bids| + 1, pk, caller.value, amount, now);
        AcceptedBidKeepsConsistent(users, tokens, listings, bids, comments, nextUserId, nextListingId, nextTokenKey, bid);
        bids := bids + [bid];
        listings := listings[pk := listing.(currentBid := amount)];
        r := Ok(bid);
      } else {
        r := Err(Invalid(BidTooLow));
      }
    }

    /**
     * Comment creation: the serializer strips the text and refuses a blank
     * or over-long one; the stripped text is then saved. The view's own
     * check for an empty text always passes, since a blank text never
     * reaches it, so its message is never returned.
     */
    method AddComment(caller: Option<UserId>, pk: ListingId, text: string, now: Instant) returns (r: Result<Comment>)
      requires Valid() && IsPrincipal(caller)
      modifies this
      ensures Valid()
      ensures caller.None? ==> r == Err(NotAuthenticated)
      ensures caller.Some? && !CommentAccepted(text) ==> r == Err(Malformed)
      ensures caller.Some? && CommentAccepted(text) && pk !in old(listings) ==> r == Err(NotFound)
      ensures r.Ok? <==> caller.Some? && CommentAccepted(text) && pk in old(listings)
      ensures r != Err(Invalid(EmptyComment))
      ensures r.Err? ==> unchanged(this)
      ensures r.Ok? ==>
        && r.value == Comment(|old(comments)| + 1, pk, caller.value, Strip(text), now)
        && r.value.text != [] && IsTrimmed(r.value.text)
        && comments == old(comments) + [r.value]
      ensures users == old(users) && tokens == old(tokens) && listings == old(listings) && bids == old(bids)
      ensures nextUserId == old(nextUserId) && nextListingId == old(nextListingId) && nextTokenKey == old(nextTokenKey)
    {
      if caller.None? {
        return Err(NotAuthenticated);
      }
      var cleaned := CleanText(text, false);
      if cleaned.None? || !CommentTextFits(cleaned.value) {
        return Err(Malformed);
      }
      if pk !in listings {
        return Err(NotFound);
      }
      var stripped := cleaned.value;
      StripIsTrimmed(text);
      // The view's `len(comment_text) > 0` check: the serializer has already refused blank text.
      assert |stripped| > 0;
      var comment := Comment(|comments| + 1, pk, caller.value, stripped, now);
      CommentAddedKeepsConsistent(users, tokens, listings, bids, comments, nextUserId, nextListingId, nextTokenKey, comment);
      comments := comments + [comment];
      r := Ok(comment);
    }
  }
}
