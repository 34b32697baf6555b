/**
 * Validation of the drink form posted to `/submit`: the four fields are
 * stripped, the name, drink and session are checked first and the quantity
 * second, each failure answered with its own 400 message.
 */
module Submission {
  import opened Wrappers
  import opened Strings
  import opened Numerals
  import opened Requests
  import Entries

  /** The validated content of one submission. */
  datatype Fields = Fields(name: string, drink: string, session: string, qty: int)

  const MissingFields := "Missing or invalid fields."
  const BadQuantity := "Quantity must be 1-10."

  /** The quantity field when it is left out of the form. */
  const DefaultQty := "1"

  /** A form field, or its default when absent, with surrounding whitespace stripped. */
  function Field(form: Params, field: string, default: string): (r: string)
    ensures Stripped(r)
    ensures Stripped(Get(form, field, default)) ==> r == Get(form, field, default)
    ensures field !in form && Stripped(default) ==> r == default
  {
    var raw := Get(form, field, default);
    if Stripped(raw) then
      StripStripped(raw);
      Strip(raw)
    else
      Strip(raw)
  }

  /**
   * The stripped name, drink and session are present and the session is one
   * of the two; in particular none of the three fields may be left out.
   */
  predicate FieldsPresent(form: Params)
    ensures FieldsPresent(form) ==> "name" in form && "drink" in form && "session" in form
  {
    Field(form, "name", "") != [] && Field(form, "drink", "") != [] && Entries.ValidSession(Field(form, "session", ""))
  }

  /** `int(qty)` on the stripped quantity, which is "1" when the field is left out. */
  function Quantity(form: Params): Option<int> {
    ParseInt(Field(form, "qty", DefaultQty))
  }

  /** The stripped quantity parses as an integer between 1 and 10. */
  predicate QuantityAccepted(form: Params)
    ensures "qty" !in form ==> QuantityAccepted(form)
  {
    DefaultQuantity(form);
    Quantity(form).Some? && Entries.ValidQty(Quantity(form).value)
  }

  /**
   * An accepted submission holds the name, drink and session as sent with
   * their surrounding whitespace removed, and the quantity as `int()` reads
   * the stripped field.
   */
  lemma AcceptedValues(form: Params)
    requires Validate(form).Ok?
    ensures Validate(form).value.name == Strip(Get(form, "name", ""))
    ensures Validate(form).value.drink == Strip(Get(form, "drink", ""))
    ensures Validate(form).value.session == Strip(Get(form, "session", ""))
    ensures Some(Validate(form).value.qty) == ParseInt(Strip(Get(form, "qty", DefaultQty)))
  {
  }

  /** An accepted submission meets the table's column constraints. */
  predicate Acceptable(f: Fields) {
    Entries.ValidColumns(f.name, f.drink, f.session, f.qty)
  }

  /** The checks of the submit handler, in the order it makes them. */
  function Validate(form: Params): (r: Reply<Fields>)
    ensures r.Fail? ==> r.status == BadRequest && (r.message == MissingFields || r.message == BadQuantity)
    ensures r.Ok? ==> Acceptable(r.value)
  {
    if !FieldsPresent(form) then
      Fail(BadRequest, MissingFields)
    else if !QuantityAccepted(form) then
      Fail(BadRequest, BadQuantity)
    else
      Ok(Fields(Field(form, "name", ""), Field(form, "drink", ""), Field(form, "session", ""), Quantity(form).value))
  }

  /**
   * A missing or empty name or drink, or a session other than AM or PM, is
   * rejected with the fields message, whatever the quantity: the field check
   * comes first.
   */
  lemma RejectsMissingFields(form: Params)
    requires !FieldsPresent(form)
    ensures Validate(form) == Fail(400, "Missing or invalid fields.")
  {
  }

  /** With the fields in order, a quantity that is not an integer in [1, 10] gets the quantity message. */
  lemma RejectsBadQuantity(form: Params)
    requires FieldsPresent(form) && !QuantityAccepted(form)
    ensures Validate(form) == Fail(400, "Quantity must be 1-10.")
  {
  }

  /** A submission passing both checks is accepted with its stripped fields and parsed quantity. */
  lemma AcceptsValid(form: Params)
    requires FieldsPresent(form) && QuantityAccepted(form)
    ensures Validate(form) == Ok(Fields(Field(form, "name", ""), Field(form, "drink", ""), Field(form, "session", ""),
                                        Quantity(form).value))
  {
  }

  /** Validation succeeds exactly when both checks pass. */
  lemma ValidateAccepts(form: Params)
    ensures Validate(form).Ok? <==> FieldsPresent(form) && QuantityAccepted(form)
  {
    if !FieldsPresent(form) {
      RejectsMissingFields(form);
    } else if !QuantityAccepted(form) {
      RejectsBadQuantity(form);
    }
  }

  /** Leaving the quantity out counts as one drink. */
  lemma MissingQuantityIsOne(form: Params)
    requires FieldsPresent(form) && "qty" !in form
    ensures Validate(form).Ok? && Validate(form).value.qty == 1
  {
    DefaultQuantity(form);
    AcceptsValid(form);
  }

  /** A quantity field that is left out parses as 1. */
  lemma DefaultQuantity(form: Params)
    ensures "qty" !in form ==> Quantity(form) == Some(1)
  {
    if "qty" !in form {
      assert Field(form, "qty", DefaultQty) == "1";
      QuantityBoundaries();
    }
  }

  /** The quantities named by the form's rules: 0, 11 and a non-number are refused, 1 and 10 accepted. */
  lemma QuantityBoundaries()
    ensures ParseInt("0") == Some(0) && ParseInt("11") == Some(11) && ParseInt("abc") == None
    ensures ParseInt("10") == Some(10) && ParseInt("1") == Some(1) && ParseInt("") == None
    ensures ParseInt("+7") == Some(7) && ParseInt("-05") == Some(-5) && ParseInt("+") == None
  {
    assert "+7"[1..] == "7" && "-05"[1..] == "05" && "05"[..1] == "0" && "7"[..0] == [] && "0"[..0] == [];
    assert "0"[..0] == [] && "1"[..0] == [];
    assert "11"[..1] == "1" && "10"[..1] == "1";
    assert !IsDigit("abc"[0]);
  }
}
