# BookStoreItem in Dafny

A model of the `BookStoreItem` value object: one catalogue record for a book,
with its author's name and optional ISNI (International Standard Name
Identifier), title, publisher, ISBN-10, publishing date, binding, price,
currency and stock amount.

The model covers:

- the three validators: the ISNI format check, the ISBN-10 format check with
  its weighted mod-11 checksum, and the three-letter currency check;
- the four constructor overloads, which chain into one base constructor;
- the guarded `Price` and `Amount` setters and the unguarded `Currency`,
  `BookBinding` and `Published` setters;
- the two web addresses derived from the identifiers, and the ISNI field of
  the one-line description.

The item is an immutable datatype `Item`. Each constructor and each guarded
setter is a function that returns `Result<Item>`: `Ok` with the new item,
or `Err` with the exception the C# class raises (`ArgumentException`,
`ArgumentOutOfRangeException` or `InvalidOperationException`, each with its
reported parameter name). A C# string reference that may be null is an
`Option<string>`.

Modules, one per file:

- `Results` (`results.dfy`): `Option`, `Result` and the `Error` kinds.
- `CharClasses` (`chars.dfy`): digits, letters, white space, and the `All`
  fold that the validators are written with.
- `Validators` (`validators.dfy`): the ISNI, ISBN and currency checks. It
  holds both the checksum as a recursive weighted sum and the checksum loop
  as the C# code writes it.
- `IsbnProperties` (`isbn_properties.dfy`): worked examples, the check
  character, and the single-error detection of the checksum.
- `BookStoreItems` (`item.dfy`): the item, its validity invariant, the
  constructors, the setters and the addresses.
- `Lifecycle` (`lifecycle.dfy`): error precedence checked against a
  first-failing-rule reference, and the invariants kept over any sequence of
  setter calls.

Behaviour of the C# class that the model keeps:

- The currency is three letters only right after construction. The
  `Currency` setter stores anything, null included.
  `Lifecycle.CurrencySetterSkipsValidation` shows this.
- `Title` and `Publisher` have private setters. After construction they
  are fixed, not mutable.
- In the extended constructor a null currency does not fall back to `"USD"`.
  The currency check dereferences it first, so it faults. The `?? "USD"` on
  the next line can never take its right operand.
- `X` is accepted at every ISBN position and weighted ten wherever it
  stands, not only at the check position (`IsbnProperties.XAcceptedAtAnyPosition`).
- The `Price` setter builds its exception as `ArgumentOutOfRangeException(null, "price")`.
  Its reported parameter name is therefore null, and `"price"` is the message.
  The `Amount` setter reports `"Amount"`.

## Model

| member | source | states |
|---|---|---|
| CharClasses.All | BookStoreItem/BookStoreItem.cs:269 | the left-to-right `All` scan holds exactly when the predicate holds of every character; the empty string passes |
| Validators.ValidateIsni | BookStoreItem/BookStoreItem.cs:267-270 | an ISNI is accepted iff it has exactly 16 characters, each a digit or `X`; no check character is verified |
| Validators.ValidateIsbnFormat | BookStoreItem/BookStoreItem.cs:272-275 | an ISBN is well formed iff it has exactly 10 characters, each a digit or `X` |
| Validators.CharValue | BookStoreItem/BookStoreItem.cs:283-290 | a character's checksum value is 10 exactly for `X`, the digit's numeric value for a digit, and 0 for any other character |
| Validators.ComputeIsbnChecksum | BookStoreItem/BookStoreItem.cs:277-294 | the ten-step loop accepts iff the sum of (10 − i)·value(s[i]) over the first ten characters is a multiple of 11, which is exactly the checksum test `ValidateIsbnChecksum` that construction applies |
| Validators.CurrencyValid | BookStoreItem/BookStoreItem.cs:298 | a currency code is accepted iff it has exactly 3 characters, each a letter |
| Validators.ThrowExceptionIfCurrencyIsNotValid | BookStoreItem/BookStoreItem.cs:296-302 | a null code faults; a malformed code raises ArgumentException for the given parameter; a code of three letters raises nothing |
| IsbnProperties.KnownIsbnAccepted | BookStoreItem/BookStoreItem.cs:277-294 | "0306406152" has weighted sum 132 and is accepted |
| IsbnProperties.KnownIsbnRejected | BookStoreItem/BookStoreItem.cs:277-294 | "0306406153" is well formed, has weighted sum 133 and is rejected |
| IsbnProperties.XAcceptedAtAnyPosition | BookStoreItem/BookStoreItem.cs:283-286 | "X00000000X", with `X` in the leading position weighted 10, passes format and checksum |
| IsbnProperties.CheckCharacter | BookStoreItem/BookStoreItem.cs:277-294 | for any nine-character prefix there is a digit or `X` that brings the weighted sum to a multiple of 11 |
| IsbnProperties.CompletedIsbnIsValid | BookStoreItem/BookStoreItem.cs:272-294 | a well-formed prefix completed with its check character passes both the format check and the checksum |
| IsbnProperties.CheckCharacterUnique | BookStoreItem/BookStoreItem.cs:277-294 | the check character is the only digit or `X` that completes a prefix into a string passing the checksum |
| IsbnProperties.SingleSubstitutionDetected | BookStoreItem/BookStoreItem.cs:277-294 | two well-formed ISBNs that differ in exactly one position never both pass the checksum |
| BookStoreItems.IsNullOrWhiteSpace | BookStoreItem/BookStoreItem.cs:31-42 | an author, title or publisher argument is refused iff it is null, empty, or made only of white space |
| BookStoreItems.New | BookStoreItem/BookStoreItem.cs:28-58 | construction succeeds iff author, title and publisher are not blank and the ISBN passes format and checksum; the item then keeps those values, has no ISNI, and has binding "", currency "USD", price 0 and amount 0 |
| BookStoreItems.AttachIsni | BookStoreItem/BookStoreItem.cs:72-79 | the ISNI is recorded, with `HasIsni` set, only when it passes the ISNI check; a null ISNI faults and a malformed one raises ArgumentException("isni"); nothing else changes |
| BookStoreItems.NewWithIsni | BookStoreItem/BookStoreItem.cs:68-80 | succeeds iff the base constructor does and the ISNI is well formed; the item is the base item with `HasIsni` true and the ISNI stored |
| BookStoreItems.SetPrice | BookStoreItem/BookStoreItem.cs:188-200 | a negative price raises ArgumentOutOfRangeException with a null parameter name; any other price is stored exactly and no other field changes |
| BookStoreItems.SetAmount | BookStoreItem/BookStoreItem.cs:210-222 | a negative amount raises ArgumentOutOfRangeException("Amount"); any other amount is stored exactly and no other field changes |
| BookStoreItems.SetCurrency | BookStoreItem/BookStoreItem.cs:205 | any currency, null or malformed included, is stored and no other field changes |
| BookStoreItems.SetBookBinding | BookStoreItem/BookStoreItem.cs:183 | any binding, null included, is stored and no other field changes |
| BookStoreItems.SetPublished | BookStoreItem/BookStoreItem.cs:178 | any publishing date is stored and no other field changes |
| BookStoreItems.NewExtended | BookStoreItem/BookStoreItem.cs:94-112 | succeeds iff the base constructor does, the currency is three letters, and price and amount are not negative; the item has no ISNI, a null binding becomes "", the given date, currency, price and amount are stored, and every other field equals the base item |
| BookStoreItems.NewExtendedWithIsni | BookStoreItem/BookStoreItem.cs:127-143 | succeeds iff the extended constructor does and the ISNI is well formed; the item is the extended item with the ISNI stored and `HasIsni` true |
| BookStoreItems.GetIsniUri | BookStoreItem/BookStoreItem.cs:229-238 | with an ISNI stored, returns an isni.org address from which exactly that ISNI is recovered; without one, raises InvalidOperationException |
| BookStoreItems.GetIsbnSearchUri | BookStoreItem/BookStoreItem.cs:245 | always returns an isbnsearch.org address from which exactly the item's ISBN is recovered |
| BookStoreItems.IsniText | BookStoreItem/BookStoreItem.cs:255-262 | on a valid item, the description shows the stored ISNI when there is one; it shows "ISNI IS NOT SET" exactly when there is none |
| BookStoreItems.Describe | BookStoreItem/BookStoreItem.cs:252-265 | the description begins with title, author and the ISNI field, separated by ", " |
| Lifecycle.FirstFailure | BookStoreItem/BookStoreItem.cs:31-54 | the reference for error precedence: no error iff every rule passes, otherwise the error of the first rule that fails, with every earlier rule passing |
| Lifecycle.NewErrorOrder | BookStoreItem/BookStoreItem.cs:31-57 | the base constructor raises the error of the first failing rule, checked in the order author, title, publisher, ISBN |
| Lifecycle.NewWithIsniErrorOrder | BookStoreItem/BookStoreItem.cs:68-79 | the ISNI constructor applies the base rules first and checks the ISNI last |
| Lifecycle.NewExtendedErrorOrder | BookStoreItem/BookStoreItem.cs:100-111 | the extended constructor applies the base rules, then the currency, then the price, then the amount |
| Lifecycle.NewExtendedWithIsniErrorOrder | BookStoreItem/BookStoreItem.cs:133-142 | the full constructor applies the base rules, currency, price and amount, and checks the ISNI only after all of them |
| Lifecycle.StateAfter | BookStoreItem/BookStoreItem.cs:178-222 | after a setter call the field holds the value it was given, or its old value when the price or amount was negative; no other field changes |
| Lifecycle.RunPreservesValidity | BookStoreItem/BookStoreItem.cs:145-222 | over any sequence of setter calls, the item stays valid: ISBN still passing, `HasIsni` still matching the ISNI, price and amount not negative. Author, ISNI, title, publisher and ISBN never change |
| Lifecycle.CurrencySetterSkipsValidation | BookStoreItem/BookStoreItem.cs:205 | a valid item stays valid after its currency is set to the malformed "12" or to null |
| Lifecycle.UriExamples | BookStoreItem/BookStoreItem.cs:229-245 | the item with ISNI "0000000121032683" and ISBN "0306406152" has addresses https://isni.org/isni/0000000121032683 and https://isbnsearch.org/isbn/0306406152 |
| Lifecycle.NoIsniUriExample | BookStoreItem/BookStoreItem.cs:229-238 | the same item built without an ISNI raises InvalidOperationException for the ISNI address |

## Left out

- `char.IsDigit`, `char.GetNumericValue` and `char.IsLetter` are limited to ASCII digits and letters. .NET also accepts other Unicode decimal digits and letters.
- A Dafny `string` is a sequence of Unicode scalar values, while a C# `string` is a sequence of UTF-16 code units. So `.Length` differs for characters outside the Basic Multilingual Plane, and lone surrogates cannot be written at all. No result changes: every character the validators accept is ASCII, and no surrogate is white space.
- `char.IsWhiteSpace` is the fixed list of Unicode white-space code points, written out by hand.
- `decimal` prices are modelled as `real`. The model ignores the decimal range and its 28-digit precision.
- Null `isbn`, `isni` or `currency` arguments all map to one `NullFault` error. In .NET these are the `ArgumentNullException` from `Enumerable.All` and the `NullReferenceException` from `.Length`.
- Exception message texts are not modelled.
- `System.Uri` parsing and normalisation are left out. The addresses are plain string concatenation.
- `DateTime?` is an opaque `Option<Date>` with no behaviour.
- BookStoreItems.Describe: how the `decimal` price is written depends on the culture, so it is a formatter parameter. The amount is never negative, so .NET writes it as plain decimal digits in every culture. The model still leaves its formatter abstract, by choice. The contract constrains only the title, author and ISNI part of the description.
- Validators.ValidateIsbnChecksum requires at least ten characters. The C# code would raise `IndexOutOfRangeException` on a shorter string, but the format check always runs first, so that never happens.
- `[assembly: CLSCompliant(true)]` and the `#pragma` directives have no effect on behaviour.
