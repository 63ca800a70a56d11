/**
 * The records of the auction marketplace: users, listings, bids and
 * comments, the bounds their fields carry, the fixed set of listing
 * categories, the "added recently" window and the string form of each
 * record.
 *
 * Money is held in integer cents: a decimal with at most six digits of
 * which two are decimal places is exactly an integer number of cents whose
 * absolute value is at most 999999. Instants are integer microseconds.
 */
module Models {

  datatype Option<+T> = None | Some(value: T)

  type UserId = nat
  type ListingId = nat
  type TokenKey = nat
  type Cents = int
  type Instant = int

  const MaxNameLength := 200
  const MaxDescriptionLength := 1000
  const MaxCommentLength := 1000
  const MaxUrlLength := 200
  const MaxUsernameLength := 150
  const MaxEmailLength := 254
  const MaxAmountDigits := 6
  const MaxCents := 999999
  /** One day, in microseconds. */
  const OneDay: int := 86_400_000_000

  // ---------------------------------------------------------------------
  // Credentials

  /**
   * A stored password. The hashing primitive is not modelled: a hashed
   * credential is the raw secret behind an injective wrapper, so that the
   * check below accepts exactly the secret that was set. A password saved
   * without going through the hashing primitive is kept as it was given; it
   * is in no hash format, so no attempt checks against it.
   */
  datatype Credential = Hashed(secret: string) | Unhashed(raw: string)

  function SetPassword(raw: string): (credential: Credential)
  {
    Hashed(raw)
  }

  predicate CheckPassword(stored: Credential, raw: string)
  {
    stored == SetPassword(raw)
  }

  lemma CheckPasswordAcceptsOnlyTheSetSecret(raw: string, attempt: string)
    ensures CheckPassword(SetPassword(raw), attempt) <==> attempt == raw
    ensures !CheckPassword(Unhashed(raw), attempt)
  {
  }

  // ---------------------------------------------------------------------
  // Records

  datatype User = User(id: UserId, username: string, email: string, password: Credential)

  datatype Category =
    | Fashion | Electronics | HomeGarden | ToyGames | Collectibles
    | SportsOutdoors | BooksMagazines | Automotives | MusicEntertainment
    | ArtCrafts | FoodBeverages | Pets | Other

  datatype Listing = Listing(
    id: ListingId,
    owner: UserId,
    name: string,
    description: string,
    startingBid: Cents,
    currentBid: Cents,
    createdAt: Instant,
    imageUrl: Option<string>,
    active: bool,
    category: Category)

  datatype Bid = Bid(id: nat, listing: ListingId, bidder: UserId, amount: Cents, date: Instant)

  datatype Comment = Comment(id: nat, listing: ListingId, commentor: UserId, text: string, date: Instant)

  // ---------------------------------------------------------------------
  // Field bounds

  /** A decimal with six digits, two of them after the point, in cents. */
  predicate FitsAmount(c: Cents)
  {
    -MaxCents <= c <= MaxCents
  }

  predicate ListingTextFits(name: string, description: string, imageUrl: Option<string>)
  {
    && |name| <= MaxNameLength
    && |description| <= MaxDescriptionLength
    && (imageUrl.Some? ==> |imageUrl.value| <= MaxUrlLength)
  }

  predicate ListingFieldsFit(l: Listing)
  {
    ListingTextFits(l.name, l.description, l.imageUrl) && FitsAmount(l.startingBid) && FitsAmount(l.currentBid)
  }

  predicate CommentTextFits(text: string)
  {
    |text| <= MaxCommentLength
  }

  predicate UserFieldsFit(username: string, email: string)
  {
    0 < |username| <= MaxUsernameLength && |email| <= MaxEmailLength
  }

  // ---------------------------------------------------------------------
  // Categories

  /** The choices in declaration order; the default is the last one. */
  const Choices: seq<Category> :=
    [Fashion, Electronics, HomeGarden, ToyGames, Collectibles,
     SportsOutdoors, BooksMagazines, Automotives, MusicEntertainment,
     ArtCrafts, FoodBeverages, Pets, Other]

  const DefaultCategory: Category := Other

  /** The value stored in the database column. */
  function StoredValue(c: Category): (value: string)
  {
    match c
    case Fashion => "Fashion"
    case Electronics => "Electronics"
    case HomeGarden => "Home & Garden"
    case ToyGames => "Toy & Games"
    case Collectibles => "Collectibles"
    case SportsOutdoors => "Sports & Outdoors"
    case BooksMagazines => "Books & Magazines"
    case Automotives => "Automotives"
    case MusicEntertainment => "Music & Entertainment"
    case ArtCrafts => "Art & Crafts"
    case FoodBeverages => "Food & Beverages"
    case Pets => "Pets"
    case Other => "Other"
  }

  /** The human-readable label paired with the stored value. */
  function DisplayLabel(c: Category): (shown: string)
  {
    match c
    case ArtCrafts => "Health & Beauty"
    case _ => StoredValue(c)
  }

  lemma ChoicesAreComplete(c: Category)
    ensures |Choices| == 13
    ensures c in Choices
    ensures DefaultCategory == Choices[12] && StoredValue(DefaultCategory) == "Other"
  {
  }

  lemma StoredValueInjective(c: Category, d: Category)
    ensures StoredValue(c) == StoredValue(d) ==> c == d
  {
  }

  /** Only one choice pairs its stored value with a different label. */
  lemma LabelDiffersOnlyForArtCrafts(c: Category)
    ensures DisplayLabel(c) == StoredValue(c) <==> c != ArtCrafts
    ensures DisplayLabel(ArtCrafts) == "Health & Beauty"
  {
  }

  /** The first of `choices` whose stored value is `s`. */
  function FindChoice(s: string, choices: seq<Category>): (r: Option<Category>)
    ensures r.Some? ==> r.value in choices && StoredValue(r.value) == s
    ensures r.None? ==> forall c :: c in choices ==> StoredValue(c) != s
  {
    if choices == [] then None
    else if StoredValue(choices[0]) == s then Some(choices[0])
    else FindChoice(s, choices[1..])
  }

  /** Validation of a submitted category against the choices. */
  function ParseCategory(s: string): (r: Option<Category>)
    ensures r.Some? <==> exists c :: StoredValue(c) == s
    ensures r.Some? ==> StoredValue(r.value) == s
  {
    var r := FindChoice(s, Choices);
    assert r.None? ==> forall c :: StoredValue(c) != s by {
      if r.None? {
        forall c ensures StoredValue(c) != s {
          ChoicesAreComplete(c);
        }
      }
    }
    r
  }

  lemma ParseCategoryRoundTrip(c: Category)
    ensures ParseCategory(StoredValue(c)) == Some(c)
  {
    var r := ParseCategory(StoredValue(c));
    StoredValueInjective(r.value, c);
  }

  // ---------------------------------------------------------------------
  // Recency

  /** A listing was added recently when its creation lies in the last day. */
  predicate WasAddedRecently(l: Listing, now: Instant)
  {
    now - OneDay <= l.createdAt <= now
  }

  /**
   * Recency is the listing's age lying between zero and one day: a listing
   * stamped in the future or more than a day ago is not recent.
   */
  lemma RecentMeansAgeWithinOneDay(l: Listing, now: Instant)
    ensures WasAddedRecently(l, now) <==> 0 <= now - l.createdAt <= OneDay
    ensures l.createdAt > now ==> !WasAddedRecently(l, now)
    ensures l.createdAt < now - OneDay ==> !WasAddedRecently(l, now)
  {
  }

  // ---------------------------------------------------------------------
  // Decimal rendering of cents

  predicate IsDigit(ch: char)
  {
    '0' <= ch <= '9'
  }

  predicate AllDigits(s: string)
  {
    forall i :: 0 <= i < |s| ==> IsDigit(s[i])
  }

  function DigitChar(d: nat): (ch: char)
    requires d < 10
    ensures IsDigit(ch) && ch as int - '0' as int == d
  {
    (d + '0' as int) as char
  }

  function DigitValue(ch: char): (d: nat)
    requires IsDigit(ch)
    ensures d < 10 && DigitChar(d) == ch
  {
    ch as int - '0' as int
  }

  function Pow10(k: nat): (p: nat)
  {
    if k == 0 then 1 else 10 * Pow10(k - 1)
  }

  lemma Pow10Positive(k: nat)
    ensures Pow10(k) >= 1
  {
  }

  /** The decimal digits of `n`, most significant first, without leading zeros. */
  function NatToDigits(n: nat): (s: string)
    ensures |s| >= 1 && AllDigits(s)
    ensures |s| > 1 ==> s[0] != '0'
    decreases n
  {
    if n < 10 then [DigitChar(n)] else NatToDigits(n / 10) + [DigitChar(n % 10)]
  }

  /** The number a string of decimal digits denotes. */
  function DigitsValue(s: string): (n: nat)
    requires AllDigits(s)
  {
    if s == [] then 0 else DigitsValue(s[..|s| - 1]) * 10 + DigitValue(s[|s| - 1])
  }

  lemma {:induction false} DigitsRoundTrip(n: nat)
    ensures DigitsValue(NatToDigits(n)) == n
    decreases n
  {
    var s := NatToDigits(n);
    if n >= 10 {
      DigitsRoundTrip(n / 10);
      assert s[..|s| - 1] == NatToDigits(n / 10);
    }
  }

  lemma {:induction false} DigitCountBound(n: nat, k: nat)
    requires k >= 1
    ensures |NatToDigits(n)| <= k <==> n < Pow10(k)
    decreases n
  {
    Pow10Positive(k - 1);
    if n >= 10 {
      if k == 1 {
        DigitCountBound(n / 10, 1);
      } else {
        DigitCountBound(n / 10, k - 1);
      }
    }
  }

  /** The amount bound is exactly "at most six decimal digits of cents". */
  lemma FitsAmountIffSixDigits(c: Cents)
    ensures FitsAmount(c) <==> |NatToDigits(if c < 0 then -c else c)| <= MaxAmountDigits
  {
    DigitCountBound(if c < 0 then -c else c, MaxAmountDigits);
    assert Pow10(MaxAmountDigits) == MaxCents + 1;
  }

  /** The two-place decimal rendering of an amount: "20.00", "-0.50". */
  function FormatCents(c: Cents): (s: string)
  {
    var a := if c < 0 then -c else c;
    (if c < 0 then "-" else "") + NatToDigits(a / 100) + "." + [DigitChar(a % 100 / 10), DigitChar(a % 10)]
  }

  /** Reads back a rendering of the form [-]digits.dd. */
  function ParseCents(s: string): (r: Option<Cents>)
  {
    if |s| > 0 && s[0] == '-' then
      match ParseUnsigned(s[1..])
      case Some(v) => Some(-(v as int))
      case None => None
    else
      ParseUnsigned(s)
  }

  function ParseUnsigned(s: string): (r: Option<nat>)
  {
    if |s| >= 4 && s[|s| - 3] == '.' && AllDigits(s[..|s| - 3]) && AllDigits(s[|s| - 2..]) then
      Some(DigitsValue(s[..|s| - 3]) * 100 + DigitsValue(s[|s| - 2..]))
    else
      None
  }

  /** Two digits read back as the number below 100 they were made from. */
  lemma TwoDigitsRoundTrip(x: nat)
    requires x < 100
    ensures AllDigits([DigitChar(x / 10), DigitChar(x % 10)])
    ensures DigitsValue([DigitChar(x / 10), DigitChar(x % 10)]) == x
  {
    var d1, d2 := DigitChar(x / 10), DigitChar(x % 10);
    assert [d1, d2][..1] == [d1];
    assert [d1][..0] == [];
    assert DigitsValue([d1]) == x / 10;
  }

  /** Reading `whole.frac` with a two-digit fraction. */
  lemma ParseUnsignedParts(whole: string, frac: string)
    requires |whole| >= 1 && AllDigits(whole) && AllDigits(frac) && |frac| == 2
    ensures ParseUnsigned(whole + "." + frac) == Some(DigitsValue(whole) * 100 + DigitsValue(frac))
  {
    var u := whole + "." + frac;
    assert |u| == |whole| + 3 && u[|u| - 3] == '.';
    assert u[..|u| - 3] == whole;
    assert u[|u| - 2..] == frac;
  }

  /** The last digit of an amount is the last digit of its hundredths. */
  lemma LastDigitOfCents(a: nat)
    ensures a % 100 % 10 == a % 10
    ensures a / 100 * 100 + a % 100 == a
  {
    var q, rem := a / 100, a % 100;
    assert a == 10 * (10 * q) + rem;
  }

  lemma UnsignedRoundTrip(a: nat)
    ensures ParseUnsigned(NatToDigits(a / 100) + "." + [DigitChar(a % 100 / 10), DigitChar(a % 10)]) == Some(a)
  {
    var q, rem := a / 100, a % 100;
    LastDigitOfCents(a);
    var whole, frac := NatToDigits(q), [DigitChar(rem / 10), DigitChar(rem % 10)];
    TwoDigitsRoundTrip(rem);
    DigitsRoundTrip(q);
    ParseUnsignedParts(whole, frac);
    assert DigitsValue(whole) * 100 + DigitsValue(frac) == a;
  }

  /** Rendering then reading back gives the amount: the rendering loses nothing. */
  lemma FormatCentsRoundTrip(c: Cents)
    ensures ParseCents(FormatCents(c)) == Some(c)
  {
    var a := if c < 0 then -c else c;
    var u := NatToDigits(a / 100) + "." + [DigitChar(a % 100 / 10), DigitChar(a % 10)];
    UnsignedRoundTrip(a);
    assert IsDigit(u[0]);
    if c < 0 {
      assert FormatCents(c) == "-" + u;
      assert ("-" + u)[1..] == u;
    } else {
      assert FormatCents(c) == u;
    }
  }

  // ---------------------------------------------------------------------
  // String forms

  function UserToString(u: User): (s: string)
    ensures s == u.username
    ensures UserFieldsFit(u.username, u.email) ==> 0 < |s| <= MaxUsernameLength
  {
    u.username
  }

  function ListingToString(l: Listing): (s: string)
    ensures s == l.name
    ensures ListingFieldsFit(l) ==> |s| <= MaxNameLength
  {
    l.name
  }

  function CommentToString(c: Comment): (s: string)
    ensures s == c.text
    ensures CommentTextFits(c.text) ==> |s| <= MaxCommentLength
  {
    c.text
  }

  /** A bid reads as its listing's name, a space and the amount. */
  function BidToString(listing: Listing, b: Bid): (s: string)
    requires b.listing == listing.id
    ensures |s| > |listing.name| && s[..|listing.name|] == listing.name && s[|listing.name|] == ' '
    ensures ParseCents(s[|listing.name| + 1..]) == Some(b.amount)
  {
    var s := listing.name + " " + FormatCents(b.amount);
    FormatCentsRoundTrip(b.amount);
    assert s[|listing.name| + 1..] == FormatCents(b.amount);
    s
  }
}
