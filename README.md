# Auction marketplace: listings, bids, comments and tokens in Dafny

This project models the core of a Django REST auction backend. Users
register and log in for a per-user token. Authenticated users create
listings, place bids and post comments.

The store is one `Marketplace` object (`views.dfy`). It holds:

- the users, keyed by username;
- the token table (at most one token per user);
- the listings, keyed by id;
- the bids and the comments, each as an append-only sequence in insertion order.

Each write endpoint is one method. It checks things in the order the framework does:

1. An anonymous caller gets `NotAuthenticated` (403).
2. The serializer validates the submitted fields. A field it refuses gets `Malformed` (400).
3. A listing id that does not exist gets `NotFound` (404).
4. Only then does the view's own rule decide.

Every text field goes through the framework's character field first
(`fields.dfy`). The value is stripped of surrounding whitespace, as Python's
`str.strip` does. A blank value is refused unless the column allows blanks,
and so is a value holding a NUL character. Length bounds apply to the
stripped value. Blank is allowed for the email and the image URL. It is
refused for the username, the password, the listing name and description,
and the comment text.

The rule for a bid: it is accepted only when its amount is strictly above the
listing's current bid. An accepted bid is appended and becomes the current
bid. Otherwise the view fails with "Bid amount must be greater than current
bid." and nothing changes. The view converts the bid to a binary float before
comparing. `floats.dfy` models that comparison exactly. It agrees with the
exact rule on every pair of different amounts, and it differs on some ties
(see "Findings"). The store's methods use the exact rule.

A comment is stored stripped. Since the serializer already refuses a blank
text, the view's own "Comment must not be empty." check always passes.
Login fails with "bad request" for an unknown user or a wrong password.
Otherwise it does a get-or-create on the token table.

Registration and login each come in two versions:

- `Register` and `Login` do what the views evidently intend: 201 or 200 with
  the token.
- `RegisterAsWritten` and `LoginAsWritten` do what the code does. The user
  serializer builds hyperlinks but is given no request, so reading its data
  raises and both answer 500. Registration raises after saving the user and
  before creating the token. Login raises after its get-or-create has stored
  the token.

The record shapes, field bounds, category choices, the "added recently"
window and the string forms are in `models.dfy`. Money is integer cents: six
digits with two decimal places is exactly |cents| <= 999999. Instants are
integer microseconds, and the clock is the parameter `now`. `scenarios.dfy`
replays the request sequences of the repository's tests against a fresh
store, and a few more that the serializers make interesting.

The store invariant (`Views.StoreConsistent`) says:

- ids are unique and below their counters;
- usernames are stored stripped;
- every reference points at an existing user or listing;
- every record fits its bounds;
- every bid is at most its listing's current bid;
- the bids on one listing rise strictly in insertion order.

Every method keeps the invariant. `NextPrice`, `FinalPrice` and
`AcceptedAmounts` describe what any series of bid attempts does to a
listing's price.

Where the code departs from a view's own messages or from what an endpoint
evidently intends, the model follows the code:

- Text fields are stripped and a blank text is refused by the serializer. The
  view's "Comment must not be empty." message is therefore never returned.
- The password is stripped before it is hashed. A password registered with
  surrounding spaces does not check against the same padded string at login.
- A listing sent as form data without `active` is saved inactive. Sent as
  JSON without it, it takes the model's default, active.
- At listing creation the client submits `current_bid` alongside
  `starting_bid`. Nothing makes them equal at creation, and nothing keeps
  `current_bid >= starting_bid`.
- Bid placement is a read-compare-write with no lock and no transaction. The
  model treats each call as atomic; see "Left out".
- Login failures are the view's own `{"message": "bad request"}` response
  (`BadRequest`). They are not a distinct invalid-credentials error.
  Registration failures are the serializer's errors (`Malformed`).

## Model

| member | source | states |
|---|---|---|
| `Views.Marketplace.PlaceBid` | auctions/views.py:78-93 | Anonymous callers get 403; out-of-bounds amounts get a validation error; a missing listing gets 404. The bid succeeds iff its amount is strictly above the current bid. Success appends exactly one Bid (next id, that listing, that bidder, that amount, `now`) and sets only that listing's `current_bid` to the amount. Failure returns "Bid amount must be greater than current bid." and leaves the whole store unchanged. The new current bid is `NextPrice(old, amount)`. |
| `Views.NextPrice` | auctions/views.py:88-91 | One bid attempt never lowers the current bid. The price changes iff the amount is strictly above it, and only ever to the amount. A tie never changes it. |
| `Views.FinalPriceIsHighest` | auctions/views.py:88-91 | After any series of attempts the current bid is at least the starting value and every attempted amount, and equals one of them. So the price is the running maximum and never decreases. |
| `Views.AcceptedAmountsRise` | auctions/views.py:88-91 | Across any series of attempts the accepted amounts rise strictly and are all above the starting value. The final current bid is the last accepted amount, or the starting value if none was accepted. |
| `Views.AcceptedBidKeepsConsistent` | auctions/views.py:89-91 | Appending an accepted bid and making its amount the current bid keeps the store invariant. Every bid stays at most its listing's current bid, and the bids on one listing stay strictly increasing. |
| `Floats.FloatComparisonDiffersOnlyOnTies` | auctions/views.py:88 | For any amount within bounds and any different current bid, comparing the double nearest to the amount with the exact current bid gives the same answer as comparing the amounts exactly. |
| `Floats.QuarterTiesAreRejected` | auctions/views.py:88 | A bid equal to the current bid is rejected under the float comparison whenever the amount is a whole number of quarters, since a double holds such a value exactly. |
| `Floats.TiesThatAreAccepted` | auctions/views.py:88 | Under the float comparison a bid of 0.01 on a current bid of 0.01 is accepted, and so is 1.10 on 1.10: the nearest double lies above the decimal. |
| `Floats.TiesThatAreRejected` | auctions/views.py:88 | Under the float comparison a bid of 0.30 on 0.30 is rejected (the nearest double lies below), and so is 20.00 on 20.00 (held exactly). |
| `Views.Marketplace.AddComment` | auctions/views.py:95-108 | Anonymous callers get 403. The text is refused with a validation error iff it is blank, holds NUL, or is over 1000 characters once stripped. A missing listing gets 404. Otherwise exactly one Comment holding the stripped, non-empty, trimmed text is appended. The view's "Comment must not be empty." error is never returned. |
| `Views.CommentAddedKeepsConsistent` | auctions/views.py:105-106 | Appending a non-empty comment within bounds, on an existing listing by a registered user, keeps the store invariant. |
| `Views.Marketplace.CreateListing` | auctions/views.py:61-68 | Anonymous callers get 403 and refused fields get a validation error; neither changes anything. Otherwise exactly one listing is added under a fresh id, owned by the calling user, and it is the listing `BuildListing` describes. |
| `Views.BuildListing` | auctions/models.py:31-39 | A submitted listing is saved iff the name and description are not blank, no field holds NUL, the stripped fields fit their bounds and the category is one of the choices. The row carries the stripped name, description and URL, the amounts, the owner and `now`. A missing `active` is true from JSON and false from form data. A missing category is `Other`. |
| `Views.ListingAddedKeepsConsistent` | auctions/views.py:67-68 | Adding a listing within bounds under the next id, owned by a registered user, keeps the store invariant. |
| `Views.Marketplace.Login` | auctions/views.py:22-32 | Login succeeds iff the username exists and the password checks. On failure it returns "bad request" and creates no token. On success the token table is the get-or-create of the old one. An existing token is returned and the table is left unchanged. |
| `Views.Marketplace.LoginAsWritten` | auctions/views.py:22-32 | With bad credentials it returns "bad request" and changes nothing. Otherwise the get-or-create on the token table happens, and then the response is a server error. |
| `Views.GetOrCreateToken` | auctions/views.py:30 | After get-or-create the user has a token, which is the returned key. Every existing token is kept unchanged. A new key is used only when the user had none. |
| `Views.GetOrCreateTokenIdempotent` | auctions/views.py:30 | A second get-or-create for the same user returns the same key and leaves the table as it was. |
| `Views.Marketplace.IssueToken` | auctions/views.py:30 | The token step of `Login`, and of `Register` at views.py:44, in place on the store. The new token table and the returned key are the get-or-create of the old table. A key it creates is held by no other user, and an existing token leaves the key counter alone. Nothing but the token table and the key counter changes, and the invariant holds. |
| `Views.TokenAddedKeepsConsistent` | auctions/views.py:30 | A first token for a registered user, under the next key, keeps the store invariant; no other user holds that key. |
| `Views.Marketplace.Register` | auctions/views.py:35-46 | Registration succeeds iff the serializer accepts it: username and password not blank, no field holding NUL, the stripped username at most 150 characters and not taken, the stripped email at most 254. On success the user is stored under the stripped username, with the stripped password set through the hashing primitive. A token with a key no other user holds is created. On failure nothing changes. |
| `Views.Marketplace.RegisterAsWritten` | auctions/views.py:35-46 | A registration the serializer refuses returns its errors and changes nothing. Otherwise the response is a server error and no token is created. The user is stored under the stripped username. The stored password is hashed when the username needed no stripping. When it did, the lookup by the submitted username finds nothing and the password stays unhashed. |
| `Views.UserAddedKeepsConsistent` | auctions/views.py:39 | Saving a user under an unused, stripped username within the username and email bounds, with the next id, keeps the store invariant, and adds exactly that id to the registered ids. |
| `Views.Marketplace.AddUser` | auctions/views.py:39 | The save step of `Register`, in place on the store. The user table gains exactly the new user under its username, the user counter moves on by one, and the registered ids gain exactly the new id. Nothing else changes, and the invariant holds. |
| `Views.CredentialChangeKeepsConsistent` | auctions/views.py:41-42 | Replacing a user's stored password keeps the store invariant and the registered ids. |
| `Views.Marketplace.SetCredential` | auctions/views.py:41-42 | The hashing step of `RegisterAsWritten`, in place on the store. Only the named user's password is replaced. Nothing else changes, and the invariant holds. |
| `Fields.CleanText` | auctions/serializers.py:32 | A submitted text is refused iff it holds NUL or it is blank and the field refuses blanks. An accepted value is the stripped text, and it is non-empty when blanks are refused. |
| `Fields.StripSplits` | auctions/models.py:32-33 | A text splits into leading whitespace, its stripped form and trailing whitespace. The stripped form has no whitespace at either end, and it is empty exactly when the text is blank. |
| `Fields.StripPadded` | auctions/models.py:32-33 | Stripping whitespace-only padding off a text with no whitespace at either end gives back that text. So the split of `StripSplits` is the only one. |
| `Fields.StripIdempotent` | auctions/models.py:32-33 | Stripping a stripped text changes nothing. |
| `Fields.NulSurvivesStrip` | auctions/models.py:63 | A text holds a NUL character iff its stripped form does. So the NUL check gives the same answer before and after stripping. |
| `Fields.CleanPadded` | auctions/serializers.py:32 | A non-empty text with no whitespace at either end and no NUL, padded with whitespace, is accepted and cleaned to the text itself. |
| `Models.CheckPasswordAcceptsOnlyTheSetSecret` | auctions/views.py:28-41 | A stored password checks against exactly the secret it was set from. A password saved without hashing checks against nothing. |
| `Models.FitsAmountIffSixDigits` | auctions/models.py:34-35 | The amount bound holds iff the absolute number of cents has at most six decimal digits. |
| `Models.FormatCentsRoundTrip` | auctions/models.py:57 | The two-place decimal rendering of an amount reads back as the same amount. |
| `Models.BidToString` | auctions/models.py:56-57 | A bid's string form is its listing's name, a space, then a rendering that reads back as the bid amount. |
| `Models.UserToString` | auctions/models.py:9-10 | A user's string form is the username. For a valid user it is non-empty and at most 150 characters. |
| `Models.ListingToString` | auctions/models.py:45-46 | A listing's string form is its name, so at most 200 characters for a listing within bounds. |
| `Models.CommentToString` | auctions/models.py:67-68 | A comment's string form is its text, so at most 1000 characters for a comment within bounds. |
| `Models.ChoicesAreComplete` | auctions/models.py:14-28 | There are exactly 13 choices and every category is among them. The default is the last, stored as "Other". |
| `Models.StoredValueInjective` | auctions/models.py:14-28 | No two categories share a stored value. |
| `Models.LabelDiffersOnlyForArtCrafts` | auctions/models.py:24 | A category's display label equals its stored value for every category except "Art & Crafts", whose label is "Health & Beauty". |
| `Models.ParseCategory` | auctions/models.py:39 | A submitted category is accepted iff it is the stored value of some choice, and it maps to that choice. |
| `Models.ParseCategoryRoundTrip` | auctions/models.py:14-28 | Validating a choice's stored value yields that same choice. |
| `Models.RecentMeansAgeWithinOneDay` | auctions/models.py:41-43 | A listing was added recently iff its age is between zero and one day inclusive. A future creation time and one more than a day old are both not recent. |
| `Scenarios.BidCreateScenario` | auctions/tests.py:294-327 | On a listing at 10.00, an anonymous bid is refused with 403. A bid of 5.00 is rejected with the literal message. A bid of 20.00 is accepted as bid 1 and the current bid becomes 20.00. |
| `Scenarios.RepeatedLoginScenario` | auctions/views.py:30-44 | With the intended Register and Login, two logins after registration both return the token created at registration. |
| `Scenarios.FailedLoginScenario` | auctions/views.py:24-29 | A wrong password and an unknown username both fail with "bad request". |
| `Scenarios.PaddedPasswordScenario` | auctions/views.py:28 | With the intended Register and Login, after registering with the password " testpass ", logging in with " testpass " fails with "bad request" and logging in with "testpass" succeeds. |
| `Scenarios.AsWrittenAccountScenario` | auctions/views.py:30-45 | As written, registering the test account and then logging in both answer 500, and the login leaves a token stored for the user. |
| `Scenarios.PaddedUsernameAsWrittenScenario` | auctions/views.py:39-41 | As written, registering " testuser" answers 500 with the password left unhashed, so a later login as "testuser" with the right password fails with "bad request". |
| `Scenarios.CommentScenario` | auctions/views.py:101-108 | An empty comment and a comment of three spaces are both refused by the serializer, not by the view. A padded comment is stored stripped. |

## Findings

| source | as written | input that shows it | evidently intended | confidence | as-written member | corrected member |
|---|---|---|---|---|---|---|
| auctions/views.py:88 | `float(bid_amount) > listing.current_bid` compares the double nearest to the bid with the exact stored decimal | a bid of 0.01 on a current bid of 0.01, or 1.10 on 1.10, is accepted, while 0.30 on 0.30 is rejected | a bid equal to the current bid is rejected, as the error message says | not executed | `Floats.TiesThatAreAccepted` | `Views.NextPrice` |
| auctions/views.py:31-32 | the user serializer builds hyperlinks, but it is created without the request, so reading its data raises after the token's get-or-create | logging in as a registered user with the right password | answer 200 with the token and the user's data | not executed | `Views.Marketplace.LoginAsWritten` | `Views.Marketplace.Login` |
| auctions/views.py:37-45 | the same serializer, created without the request, raises when its data is read at line 43, after the user is saved and before the token is created | registering "testuser", "testuser@example.com", "testpass" | answer 201 with a new token and the user's data | not executed | `Views.Marketplace.RegisterAsWritten` | `Views.Marketplace.Register` |
| auctions/views.py:40 | the saved user is looked up by the username as submitted, while the serializer saved it stripped | registering the username " testuser": the lookup fails and the password stays unhashed | hash the password of the user the serializer saved | not executed | `Scenarios.PaddedUsernameAsWrittenScenario` | `Views.Marketplace.Register` |

## Left out

- Concurrent requests. The bid view reads the price, compares, saves the bid and saves the listing as separate steps, with no lock or transaction. Two concurrent bids can therefore both pass the comparison against the same stale price. Each method here runs atomically, one call after another, so the model shows nothing about interleavings.
- `Views.Marketplace.PlaceBid`: uses the exact comparison, which is the evidently intended rule. The float comparison of the code is modelled separately in `Floats.FloatExceeds`. It differs from the exact one only on ties, as `Floats.FloatComparisonDiffersOnlyOnTies` proves, and the ties on which it differs are listed under "Findings".
- Password hashing and checking. A stored credential is the secret behind an injective wrapper, and the check is equality with it. A password saved without hashing is kept in a form no attempt checks against.
- Token key generation. Keys are natural numbers handed out by a counter, so each new key is distinct from every existing one. The random 40-character keys are not modelled.
- Resolving a session or token to the request's user. The authenticated principal is a parameter: `None` for an anonymous caller, otherwise the id of a registered user. That is what the methods' `IsPrincipal` precondition requires.
- Listing retrieval, update and deletion (`ListingDetail`), and the owner-only permission class it uses. `auctions/permissions.py` is not part of this model.
- The root discovery view `api_root`, the admin-only user list and detail views, the serializers' field lists and read-only projections, and the URL table. These hold no logic beyond the framework's.
- Serializer validation beyond stripping, blanks, NUL, the model fields' bounds and the category choices. The username character rules and the email and URL formats are not modelled. Every refusal by the serializer becomes the single error `Malformed`.
- The framework's mapping of an uncaught exception to a 500 response. The as-written views return `ServerError` at the point where the exception is raised. What was saved before that point stays saved, since the views run without a transaction.
- The no-op assignment to `serializer.data["password"]` in the registration view, which is where the as-written registration raises.
- A missing `username` or `password` key in the login request body is not modelled. Both are parameters.
- Ids are allocated from counters, one per table, starting at 1. Bid and comment ids equal their position in insertion order plus one, since nothing is ever deleted in this model.
- `Models.BidToString`: states that the amount is recoverable from the rendering and that the name and separator come first. It renders the amount with exactly two decimal places, as a value stored with two decimal places is rendered. A bid still holding an unquantised in-memory value is not covered.
