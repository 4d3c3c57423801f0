/** The item over its lifetime: the order in which construction reports the
    first violated rule, and what any sequence of public setter calls can and
    cannot change. */
module Lifecycle {
  import opened Results
  import opened Validators
  import opened BookStoreItems
  import IsbnProperties
  import CharClasses

  /** One construction rule: whether the arguments pass it, and the exception
      raised when they do not. */
  datatype Check = Check(passes: bool, error: Error)

  /** The exception of the first rule, in order, that the arguments violate;
      `None` when they pass every rule. */
  function FirstFailure(checks: seq<Check>): (r: Option<Error>)
    ensures r == None <==> forall i :: 0 <= i < |checks| ==> checks[i].passes
    ensures r != None ==> exists i :: && 0 <= i < |checks| && !checks[i].passes && checks[i].error == r.value
                                      && forall j :: 0 <= j < i ==> checks[j].passes
  {
    if |checks| == 0 then None
    else if !checks[0].passes then Some(checks[0].error)
    else FirstFailure(checks[1..])
  }

  /** The rules of a later stage only matter once every earlier rule passed. */
  lemma {:induction false} FirstFailureAppend(a: seq<Check>, b: seq<Check>)
    ensures FirstFailure(a + b) == if FirstFailure(a) != None then FirstFailure(a) else FirstFailure(b)
  {
    if |a| > 0 {
      assert (a + b)[0] == a[0];
      assert (a + b)[1..] == a[1..] + b;
      FirstFailureAppend(a[1..], b);
    } else {
      assert a + b == b;
    }
  }

  /** A string argument that must not be null, empty or white space. */
  function NotBlank(s: NString, paramName: string): Check {
    Check(!IsNullOrWhiteSpace(s), ArgumentException(paramName))
  }

  /** A string argument the validator dereferences: null faults, a value that
      fails `valid` is reported against `paramName`. */
  function Validated(s: NString, valid: string -> bool, paramName: string): Check {
    match s
    case None => Check(false, NullFault)
    case Some(v) => Check(valid(v), ArgumentException(paramName))
  }

  /** The rules of the base constructor, in the order it applies them. */
  function BaseRules(authorName: NString, title: NString, publisher: NString, isbn: NString): seq<Check> {
    [NotBlank(authorName, "authorName"), NotBlank(title, "title"), NotBlank(publisher, "publisher"),
     Validated(isbn, IsValidIsbn, "isbn")]
  }

  /** The rules the extended constructors add after the base ones. */
  function ExtendedRules(currency: NString, price: real, amount: int32): seq<Check> {
    [Validated(currency, CurrencyValid, "currency"),
     Check(price >= 0.0, ArgumentOutOfRangeException(None)),
     Check(amount >= 0, ArgumentOutOfRangeException(Some("Amount")))]
  }

  /** The rule the ISNI constructors apply last. */
  function IsniRules(isni: NString): seq<Check> {
    [Validated(isni, ValidateIsni, "isni")]
  }

  /** The exception a construction raised, if any. */
  function Raised<T>(r: Result<T>): Option<Error> {
    if r.Err? then Some(r.error) else None
  }

  /** The base constructor raises the exception of the first rule violated,
      in the order author, title, publisher, ISBN, and builds an item only
      when every rule passes. */
  lemma NewErrorOrder(authorName: NString, title: NString, publisher: NString, isbn: NString)
    ensures Raised(New(authorName, title, publisher, isbn)) == FirstFailure(BaseRules(authorName, title, publisher, isbn))
  {
    var a, t, p := NotBlank(authorName, "authorName"), NotBlank(title, "title"), NotBlank(publisher, "publisher");
    var i := Validated(isbn, IsValidIsbn, "isbn");
    assert [a, t, p, i][1..] == [t, p, i];
    assert [t, p, i][1..] == [p, i];
    assert [p, i][1..] == [i];
    assert [i][1..] == [];
    assert FirstFailure([i]) == if i.passes then None else Some(i.error);
    assert FirstFailure([p, i]) == if p.passes then FirstFailure([i]) else Some(p.error);
    assert FirstFailure([t, p, i]) == if t.passes then FirstFailure([p, i]) else Some(t.error);
    assert FirstFailure([a, t, p, i]) == if a.passes then FirstFailure([t, p, i]) else Some(a.error);
    if isbn != None { assert i.passes == IsValidIsbn(isbn.value); }
  }

  /** The ISNI constructor: the base rules, then the ISNI. */
  lemma NewWithIsniErrorOrder(authorName: NString, isni: NString, title: NString, publisher: NString, isbn: NString)
    ensures Raised(NewWithIsni(authorName, isni, title, publisher, isbn))
            == FirstFailure(BaseRules(authorName, title, publisher, isbn) + IsniRules(isni))
  {
    NewErrorOrder(authorName, title, publisher, isbn);
    FirstFailureAppend(BaseRules(authorName, title, publisher, isbn), IsniRules(isni));
  }

  /** The extended constructor: the base rules, then currency, price and
      amount. */
  lemma NewExtendedErrorOrder(authorName: NString, title: NString, publisher: NString, isbn: NString,
                              published: Option<Date>, bookBinding: NString, price: real,
                              currency: NString, amount: int32)
    ensures Raised(NewExtended(authorName, title, publisher, isbn, published, bookBinding, price, currency, amount))
            == FirstFailure(BaseRules(authorName, title, publisher, isbn) + ExtendedRules(currency, price, amount))
  {
    NewErrorOrder(authorName, title, publisher, isbn);
    FirstFailureAppend(BaseRules(authorName, title, publisher, isbn), ExtendedRules(currency, price, amount));
    var c := Validated(currency, CurrencyValid, "currency");
    var p := Check(price >= 0.0, ArgumentOutOfRangeException(None));
    var n := Check(amount >= 0, ArgumentOutOfRangeException(Some("Amount")));
    assert [c, p, n][1..] == [p, n];
    assert [p, n][1..] == [n];
    assert [n][1..] == [];
    assert FirstFailure([n]) == if n.passes then None else Some(n.error);
    assert FirstFailure([p, n]) == if p.passes then FirstFailure([n]) else Some(p.error);
    assert FirstFailure([c, p, n]) == if c.passes then FirstFailure([p, n]) else Some(c.error);
  }

  /** The full constructor: the base rules, then currency, price and amount,
      and only then the ISNI. */
  lemma NewExtendedWithIsniErrorOrder(authorName: NString, isni: NString, title: NString, publisher: NString,
                                      isbn: NString, published: Option<Date>, bookBinding: NString,
                                      price: real, currency: NString, amount: int32)
    ensures Raised(NewExtendedWithIsni(authorName, isni, title, publisher, isbn, published, bookBinding,
                                       price, currency, amount))
            == FirstFailure(BaseRules(authorName, title, publisher, isbn) + ExtendedRules(currency, price, amount)
                            + IsniRules(isni))
  {
    NewExtendedErrorOrder(authorName, title, publisher, isbn, published, bookBinding, price, currency, amount);
    FirstFailureAppend(BaseRules(authorName, title, publisher, isbn) + ExtendedRules(currency, price, amount),
                       IsniRules(isni));
  }

  /** One call of a public setter. `Title`, `Publisher` and `Isbn` have no
      public setter and so no mutation. */
  datatype Mutation =
    | AssignPublished(published: Option<Date>)
    | AssignBookBinding(bookBinding: NString)
    | AssignPrice(price: real)
    | AssignCurrency(currency: NString)
    | AssignAmount(amount: int32)

  /** The item after a setter call, whether or not the setter raised: a
      refused value leaves the item as it was. */
  function StateAfter(it: Item, m: Mutation): (r: Item)
    ensures m.AssignPrice? ==> r.price == (if m.price >= 0.0 then m.price else it.price)
                               && r.(price := it.price) == it
    ensures m.AssignAmount? ==> r.amount == (if m.amount >= 0 then m.amount else it.amount)
                                && r.(amount := it.amount) == it
    ensures m.AssignCurrency? ==> r.currency == m.currency && r.(currency := it.currency) == it
    ensures m.AssignBookBinding? ==> r.bookBinding == m.bookBinding && r.(bookBinding := it.bookBinding) == it
    ensures m.AssignPublished? ==> r.published == m.published && r.(published := it.published) == it
  {
    match m
    case AssignPublished(d) => SetPublished(it, d)
    case AssignBookBinding(b) => SetBookBinding(it, b)
    case AssignPrice(p) => SetPrice(it, p).GetOr(it)
    case AssignCurrency(c) => SetCurrency(it, c)
    case AssignAmount(a) => SetAmount(it, a).GetOr(it)
  }

  /** The item after a sequence of setter calls, in order. */
  function Run(it: Item, ms: seq<Mutation>): Item
    decreases |ms|
  {
    if |ms| == 0 then it else Run(StateAfter(it, ms[0]), ms[1..])
  }

  /** The fields no public setter reaches. */
  predicate SameIdentity(a: Item, b: Item) {
    && a.authorName == b.authorName && a.isni == b.isni && a.hasIsni == b.hasIsni
    && a.title == b.title && a.publisher == b.publisher && a.isbn == b.isbn
  }

  /** Any sequence of setter calls keeps an item valid, never touches its
      author, ISNI, title, publisher or ISBN, and so keeps the ISBN that
      construction accepted. */
  lemma {:induction false} RunPreservesValidity(it: Item, ms: seq<Mutation>)
    requires Valid(it)
    decreases |ms|
    ensures Valid(Run(it, ms))
    ensures SameIdentity(Run(it, ms), it)
  {
    if |ms| > 0 {
      var next := StateAfter(it, ms[0]);
      assert Valid(next) && SameIdentity(next, it);
      RunPreservesValidity(next, ms[1..]);
    }
  }

  /** The currency setter does not re-check the code: a valid item stays
      valid whatever currency, well-formed or not, is stored in it. */
  lemma CurrencySetterSkipsValidation(it: Item)
    requires Valid(it)
    ensures Valid(SetCurrency(it, Some("12")))
    ensures !CurrencyValid("12")
    ensures Valid(SetCurrency(it, None))
  {
  }

  /** The example item's arguments pass every rule of the base constructor. */
  lemma ExampleBaseBuilt()
    ensures New(Some("A"), Some("T"), Some("P"), Some("0306406152")).Ok?
  {
    IsbnProperties.KnownIsbnAccepted();
    assert !IsNullOrWhiteSpace(Some("A")) && !IsNullOrWhiteSpace(Some("T")) && !IsNullOrWhiteSpace(Some("P"));
  }

  /** The example ISNI is well formed. */
  lemma ExampleIsniValid()
    ensures ValidateIsni("0000000121032683")
  {
    var isni := "0000000121032683";
    assert forall i :: 0 <= i < |isni| ==> CharClasses.IsDigit(isni[i]);
  }

  /** The contributor-page address of an item whose ISNI is "0000000121032683". */
  lemma ExampleIsniUri(it: Item)
    requires it.isni == Some("0000000121032683")
    ensures GetIsniUri(it) == Ok("https://isni.org/isni/0000000121032683")
  {
    assert IsniUriPrefix + "0000000121032683" == "https://isni.org/isni/0000000121032683";
  }

  /** The search-page address of an item whose ISBN is "0306406152". */
  lemma ExampleIsbnSearchUri(it: Item)
    requires it.isbn == "0306406152"
    ensures GetIsbnSearchUri(it) == "https://isbnsearch.org/isbn/0306406152"
  {
  }

  /** Worked addresses: the item with ISNI "0000000121032683" and ISBN
      "0306406152" links to both sites. */
  lemma UriExamples()
    ensures var it := NewWithIsni(Some("A"), Some("0000000121032683"), Some("T"), Some("P"), Some("0306406152"));
            && it.Ok?
            && GetIsniUri(it.value) == Ok("https://isni.org/isni/0000000121032683")
            && GetIsbnSearchUri(it.value) == "https://isbnsearch.org/isbn/0306406152"
  {
    ExampleBaseBuilt();
    ExampleIsniValid();
    var it := NewWithIsni(Some("A"), Some("0000000121032683"), Some("T"), Some("P"), Some("0306406152"));
    assert it.Ok? && it.value.isbn == "0306406152" && it.value.isni == Some("0000000121032683");
    ExampleIsniUri(it.value);
    ExampleIsbnSearchUri(it.value);
  }

  /** The same item built without an ISNI refuses the contributor-page
      address. */
  lemma NoIsniUriExample()
    ensures var it := New(Some("A"), Some("T"), Some("P"), Some("0306406152"));
            && it.Ok? && GetIsniUri(it.value) == Err(InvalidOperationException)
  {
    ExampleBaseBuilt();
  }
}
