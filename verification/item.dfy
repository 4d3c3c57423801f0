/** The book-store item: an immutable record of author identity, ISBN and
    commercial metadata, its four construction paths, its guarded setters and
    its derived web addresses. Construction either yields a whole item or
    raises; a setter that raises leaves the item as it was. */
module BookStoreItems {
  import opened Results
  import opened CharClasses
  import opened Validators

  /** A 32-bit signed integer, the type of the stock amount. */
  newtype int32 = x: int | -0x8000_0000 <= x < 0x8000_0000

  /** A publishing date. The item only stores it. */
  datatype Date = Date(ticks: int)

  /** One catalogue record. `isni`, `bookBinding` and `currency` are string
      references that may be null; `price` stands for a decimal amount. */
  datatype Item = Item(
    authorName: string,
    isni: NString,
    hasIsni: bool,
    title: string,
    publisher: string,
    isbn: string,
    published: Option<Date>,
    bookBinding: NString,
    price: real,
    currency: NString,
    amount: int32)

  const DefaultCurrency := "USD"
  const IsniUriPrefix := "https://isni.org/isni/"
  const IsbnSearchUriPrefix := "https://isbnsearch.org/isbn/"
  const NoIsniMarker := "ISNI IS NOT SET"

  /** Null, empty, or white space only. */
  predicate IsNullOrWhiteSpace(s: NString)
    ensures IsNullOrWhiteSpace(s) <==> s == None || forall i :: 0 <= i < |s.value| ==> IsWhiteSpace(s.value[i])
  {
    match s
    case None => true
    case Some(v) => All(v, IsWhiteSpace)
  }

  /** What holds of every item that exists: non-blank author, title and
      publisher, an ISBN passing format and checksum, `hasIsni` exactly when an
      ISNI is stored and that ISNI well-formed, and no negative price or stock. */
  predicate Valid(it: Item) {
    && !IsNullOrWhiteSpace(Some(it.authorName))
    && !IsNullOrWhiteSpace(Some(it.title))
    && !IsNullOrWhiteSpace(Some(it.publisher))
    && IsValidIsbn(it.isbn)
    && (it.hasIsni <==> it.isni != None)
    && (it.isni != None ==> ValidateIsni(it.isni.value))
    && it.price >= 0.0
    && it.amount >= 0
  }

  /** The constructor every other one chains into: author, title and publisher
      must not be blank, then the ISBN must pass format and checksum. The
      remaining fields take their defaults. */
  function New(authorName: NString, title: NString, publisher: NString, isbn: NString): (r: Result<Item>)
    ensures r.Ok? <==> && !IsNullOrWhiteSpace(authorName) && !IsNullOrWhiteSpace(title)
                       && !IsNullOrWhiteSpace(publisher) && isbn != None && IsValidIsbn(isbn.value)
    ensures r.Ok? ==> && Valid(r.value)
                      && r.value.authorName == authorName.value && r.value.title == title.value
                      && r.value.publisher == publisher.value && r.value.isbn == isbn.value
                      && !r.value.hasIsni && r.value.isni == None && r.value.published == None
                      && r.value.bookBinding == Some("") && r.value.currency == Some(DefaultCurrency)
                      && r.value.price == 0.0 && r.value.amount == 0
  {
    if IsNullOrWhiteSpace(authorName) then Err(ArgumentException("authorName"))
    else if IsNullOrWhiteSpace(title) then Err(ArgumentException("title"))
    else if IsNullOrWhiteSpace(publisher) then Err(ArgumentException("publisher"))
    else match isbn
      case None => Err(NullFault)
      case Some(s) =>
        if !ValidateIsbnFormat(s) || !ValidateIsbnChecksum(s) then Err(ArgumentException("isbn"))
        else Ok(Item(authorName.value, None, false, title.value, publisher.value, s,
                     None, Some(""), 0.0, Some(DefaultCurrency), 0))
  }

  /** Records a validated ISNI on a freshly built item. */
  function AttachIsni(it: Item, isni: NString): (r: Result<Item>)
    ensures r.Ok? <==> isni != None && ValidateIsni(isni.value)
    ensures isni == None ==> r == Err(NullFault)
    ensures isni != None && r.Err? ==> r == Err(ArgumentException("isni"))
    ensures r.Ok? ==> r.value.hasIsni && r.value.isni == isni
                      && r.value.(hasIsni := it.hasIsni, isni := it.isni) == it
  {
    match isni
    case None => Err(NullFault)
    case Some(v) =>
      if !ValidateIsni(v) then Err(ArgumentException("isni"))
      else Ok(it.(hasIsni := true, isni := isni))
  }

  /** The base constructor followed by the ISNI check. */
  function NewWithIsni(authorName: NString, isni: NString, title: NString, publisher: NString,
                       isbn: NString): (r: Result<Item>)
    ensures r.Ok? <==> New(authorName, title, publisher, isbn).Ok? && isni != None && ValidateIsni(isni.value)
    ensures r.Ok? ==> && Valid(r.value) && r.value.hasIsni && r.value.isni == isni
                      && r.value.(hasIsni := false, isni := None) == New(authorName, title, publisher, isbn).value
  {
    var base :- New(authorName, title, publisher, isbn);
    AttachIsni(base, isni)
  }

  /** The price setter: a negative price is refused, anything else is stored
      exactly and nothing else changes. */
  function SetPrice(it: Item, value: real): (r: Result<Item>)
    ensures r.Err? <==> value < 0.0
    ensures r.Err? ==> r.error == ArgumentOutOfRangeException(None)
    ensures r.Ok? ==> r.value.price == value && r.value.(price := it.price) == it
  {
    if value < 0.0 then Err(ArgumentOutOfRangeException(None))
    else Ok(it.(price := value))
  }

  /** The stock setter: a negative amount is refused, anything else is stored
      exactly and nothing else changes. */
  function SetAmount(it: Item, value: int32): (r: Result<Item>)
    ensures r.Err? <==> value < 0
    ensures r.Err? ==> r.error == ArgumentOutOfRangeException(Some("Amount"))
    ensures r.Ok? ==> r.value.amount == value && r.value.(amount := it.amount) == it
  {
    if value < 0 then Err(ArgumentOutOfRangeException(Some("Amount")))
    else Ok(it.(amount := value))
  }

  /** The currency setter stores whatever it is given, null included. */
  function SetCurrency(it: Item, value: NString): (r: Item)
    ensures r.currency == value && r.(currency := it.currency) == it
  {
    it.(currency := value)
  }

  /** The binding setter stores whatever it is given, null included. */
  function SetBookBinding(it: Item, value: NString): (r: Item)
    ensures r.bookBinding == value && r.(bookBinding := it.bookBinding) == it
  {
    it.(bookBinding := value)
  }

  /** The publishing-date setter. */
  function SetPublished(it: Item, value: Option<Date>): (r: Item)
    ensures r.published == value && r.(published := it.published) == it
  {
    it.(published := value)
  }

  /** The extended constructor: the base constructor, then the date and the
      binding (null becoming empty), then the currency check, then the price
      and stock setters. */
  function NewExtended(authorName: NString, title: NString, publisher: NString, isbn: NString,
                       published: Option<Date>, bookBinding: NString, price: real,
                       currency: NString, amount: int32): (r: Result<Item>)
    ensures r.Ok? <==> && New(authorName, title, publisher, isbn).Ok?
                       && currency != None && CurrencyValid(currency.value)
                       && price >= 0.0 && amount >= 0
    ensures r.Ok? ==> && Valid(r.value) && !r.value.hasIsni && r.value.isni == None
                      && r.value.published == published
                      && r.value.bookBinding == Some(bookBinding.GetOr(""))
                      && r.value.currency == currency && r.value.price == price && r.value.amount == amount
                      && r.value.(published := None, bookBinding := Some(""), currency := Some(DefaultCurrency),
                                  price := 0.0, amount := 0)
                         == New(authorName, title, publisher, isbn).value
  {
    var base :- New(authorName, title, publisher, isbn);
    var dated := SetBookBinding(SetPublished(base, published), Some(bookBinding.GetOr("")));
    match ThrowExceptionIfCurrencyIsNotValid(currency, "currency")
    case Some(e) => Err(e)
    case None =>
      // the currency is known to be non-null here, so `currency ?? "USD"`
      // always takes the left operand
      var priced :- SetPrice(SetCurrency(dated, currency), price);
      SetAmount(priced, amount)
  }

  /** The extended constructor followed by the ISNI check. */
  function NewExtendedWithIsni(authorName: NString, isni: NString, title: NString, publisher: NString,
                               isbn: NString, published: Option<Date>, bookBinding: NString,
                               price: real, currency: NString, amount: int32): (r: Result<Item>)
    ensures r.Ok? <==> && NewExtended(authorName, title, publisher, isbn, published, bookBinding,
                                      price, currency, amount).Ok?
                       && isni != None && ValidateIsni(isni.value)
    ensures r.Ok? ==> && Valid(r.value) && r.value.hasIsni && r.value.isni == isni
                      && r.value.(hasIsni := false, isni := None)
                         == NewExtended(authorName, title, publisher, isbn, published, bookBinding,
                                        price, currency, amount).value
  {
    var base :- NewExtended(authorName, title, publisher, isbn, published, bookBinding, price, currency, amount);
    AttachIsni(base, isni)
  }

  /** The ISNI a contributor-page address points at, if it is one. */
  function IsniOfUri(uri: string): NString {
    if IsniUriPrefix <= uri then Some(uri[|IsniUriPrefix|..]) else None
  }

  /** The ISBN a search-page address points at, if it is one. */
  function IsbnOfSearchUri(uri: string): NString {
    if IsbnSearchUriPrefix <= uri then Some(uri[|IsbnSearchUriPrefix|..]) else None
  }

  /** The address of the author's page at isni.org; refused when no ISNI is
      stored. */
  function GetIsniUri(it: Item): (r: Result<string>)
    ensures r.Ok? <==> it.isni != None
    ensures r.Err? ==> r.error == InvalidOperationException
    ensures r.Ok? ==> IsniOfUri(r.value) == it.isni
  {
    match it.isni
    case None => Err(InvalidOperationException)
    case Some(v) => Ok(IsniUriPrefix + v)
  }

  /** The address of the book's page at isbnsearch.org, always available. */
  function GetIsbnSearchUri(it: Item): (r: string)
    ensures IsbnOfSearchUri(r) == Some(it.isbn)
  {
    IsbnSearchUriPrefix + it.isbn
  }

  /** The text a null string reference interpolates to. */
  function Text(s: NString): string {
    s.GetOr("")
  }

  /** The field that stands for the author's ISNI in the description: the
      ISNI itself, or a marker that no well-formed ISNI can be mistaken for. */
  function IsniText(it: Item): (r: string)
    ensures Valid(it) ==> (r == NoIsniMarker <==> !it.hasIsni)
    ensures Valid(it) && it.hasIsni ==> r == it.isni.value
  {
    if !it.hasIsni then NoIsniMarker else Text(it.isni)
  }

  /** The one-line description "title, author, ISNI, price currency, amount";
      how numbers are rendered is left to the two formatters. */
  function Describe(it: Item, formatPrice: real -> string, formatAmount: int32 -> string): (r: string)
    ensures it.title + ", " + it.authorName + ", " + IsniText(it) + ", " <= r
  {
    it.title + ", " + it.authorName + ", " + IsniText(it) + ", "
    + formatPrice(it.price) + " " + Text(it.currency) + ", " + formatAmount(it.amount)
  }
}
