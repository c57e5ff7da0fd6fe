/**
 * The input rules of the request schemas: field lengths and ranges, and the schema-level
 * check that the guest bounds are ordered. Parsing, type conversion and the presence of
 * required keys belong to the schema framework and are not modelled: an input here is
 * already a typed record.
 */
module Validation {
  import opened Wrappers

  /** A floating-point amount (price, order amount, paid amount). It is stored and
      returned, never computed with. */
  type Amount = real

  /** A calendar date, as a day number. */
  type Day = int

  const MinFullNameLength: nat := 5
  const MinPhoneLength: nat := 10
  const MinNameLength: nat := 1
  const MaxNameLength: nat := 100
  const MinQuantity: int := 1

  /** The body of an add-order request, or of an edit request without its `id`. The
      schemas require `fullName`, `phone`, `price`, the guest bounds, `date`, the times,
      the amounts and `orderType`; the rest may be missing or null. */
  datatype OrderInput = OrderInput(
    fullName: string,
    phone: string,
    anotherPhone: Option<string>,
    anotherName: Option<string>,
    price: Amount,
    minGuests: int,
    maxGuests: int,
    date: Day,
    startTime: string,
    endTime: string,
    orderAmount: Amount,
    paidAmount: Amount,
    orderType: string,
    comments: Option<string>,
    extras: Option<seq<string>>)

  /** The field-level and schema-level errors a rejected order input can carry. */
  datatype OrderError = FullNameTooShort | PhoneTooShort | GuestsInverted

  /** What an accepted order input satisfies. */
  predicate AcceptableOrder(d: OrderInput)
  {
    |d.fullName| >= MinFullNameLength && |d.phone| >= MinPhoneLength && d.minGuests <= d.maxGuests
  }

  /** The errors `AddOrderSchema` and `UpdateOrderSchema` report. The per-field length
      validators run first; the schema validator `validate_guests` runs only when no
      field failed (the framework skips schema validators after field errors), so the
      guest error is reported exactly when the lengths are fine and `minGuests` exceeds
      `maxGuests`. Equal bounds are accepted. */
  function OrderErrors(d: OrderInput): (errs: set<OrderError>)
    ensures errs == {} <==> AcceptableOrder(d)
    ensures FullNameTooShort in errs <==> |d.fullName| < MinFullNameLength
    ensures PhoneTooShort in errs <==> |d.phone| < MinPhoneLength
    ensures GuestsInverted in errs <==>
      |d.fullName| >= MinFullNameLength && |d.phone| >= MinPhoneLength && d.minGuests > d.maxGuests
  {
    var fieldErrors :=
      (if |d.fullName| < MinFullNameLength then {FullNameTooShort} else {}) +
      (if |d.phone| < MinPhoneLength then {PhoneTooShort} else {});
    if fieldErrors != {} then fieldErrors
    else if d.minGuests > d.maxGuests then {GuestsInverted}
    else {}
  }

  /** `validate.Length(min=1, max=100)` on the name of a category or of a sub-category. */
  predicate NameAcceptable(name: string)
  {
    MinNameLength <= |name| <= MaxNameLength
  }

  /** `validate.Range(min=1)` on the quantity of a menu item (`AddOrderMenuItemSchema`). */
  predicate QuantityAcceptable(quantity: int)
  {
    quantity >= MinQuantity
  }
}
