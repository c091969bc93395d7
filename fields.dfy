/** The validated value holders: `Field` and its kinds `Name`, `Phone` and
    `Birthday`. The base class runs `validate` in its constructor and
    `validate_value` followed by `validate` in its value setter; each kind
    overrides a different one of the two, so each path runs its own check. */
module Fields {
  import opened Outcomes
  import opened Text
  import Calendar

  datatype Kind = NameField | PhoneField | BirthdayField

  /** A phone number: all digits and exactly ten characters. */
  predicate IsPhoneNumber(v: string) {
    IsDigits(v) && |v| == 10
  }

  /** What `validate_value` checks: `Phone` its number rule, `Name` that the
      text is letters only, `Birthday` nothing (the base class's no-op). */
  predicate ValidateValue(kind: Kind, v: string)
    ensures kind == BirthdayField ==> ValidateValue(kind, v)
    ensures kind != BirthdayField && ValidateValue(kind, v) ==> |v| > 0
  {
    match kind
    case NameField => IsLetters(v)
    case PhoneField => IsPhoneNumber(v)
    case BirthdayField => true
  }

  /** What `validate` checks: `Phone` delegates to its `validate_value`,
      `Birthday` requires the `%Y-%m-%d` parse to succeed, `Name` inherits the
      base class's no-op. */
  predicate Validate(kind: Kind, v: string)
    ensures kind == NameField ==> Validate(kind, v)
    ensures kind != NameField && Validate(kind, v) ==> 8 <= |v| <= 10
  {
    match kind
    case NameField => true
    case PhoneField => IsPhoneNumber(v)
    case BirthdayField => Calendar.ParseDate(v).Some?
  }

  /** Whether constructing a field of this kind from `v` succeeds: the
      constructor runs `validate` only, so a name is never checked here. */
  predicate ConstructorAccepts(kind: Kind, v: string)
    ensures kind == NameField ==> ConstructorAccepts(kind, v)
    ensures kind == PhoneField ==>
      (ConstructorAccepts(kind, v) <==> |v| == 10 && forall i :: 0 <= i < |v| ==> IsAsciiDigit(v[i]))
  {
    Validate(kind, v)
  }

  /** A birthday is accepted exactly when its text spells a valid date in the
      shape `%Y-%m-%d` (see `Calendar.Spelling`). */
  lemma BirthdayAcceptsExactlySpellings(v: string)
    ensures ConstructorAccepts(BirthdayField, v) <==>
      exists d, shortMonth, form :: Calendar.ValidDate(d) && v == Calendar.Spelling(d, shortMonth, form)
  {
    if Calendar.ParseDate(v).Some? {
      Calendar.ParsedIsSpelling(v);
    }
    if d, shortMonth, form :| Calendar.ValidDate(d) && v == Calendar.Spelling(d, shortMonth, form) {
      Calendar.SpellingParses(d, shortMonth, form);
    }
  }

  /** Whether assigning `v` through the value setter succeeds: it runs
      `validate_value` and then `validate`. A name must now be letters; a phone
      and a birthday face the same rule as at construction. */
  predicate SetterAccepts(kind: Kind, v: string)
    ensures kind == NameField ==> (SetterAccepts(kind, v) <==> IsLetters(v))
    ensures kind != NameField ==> (SetterAccepts(kind, v) <==> ConstructorAccepts(kind, v))
    ensures SetterAccepts(kind, v) ==> ConstructorAccepts(kind, v)
  {
    ValidateValue(kind, v) && Validate(kind, v)
  }

  /** A name field can be built from text its own setter refuses. */
  lemma NameChecksOnlyOnUpdate()
    ensures ConstructorAccepts(NameField, "Anna 1") && !SetterAccepts(NameField, "Anna 1")
    ensures ConstructorAccepts(NameField, "") && !SetterAccepts(NameField, "")
  {
    assert !IsAsciiLetter("Anna 1"[4]);
  }

  /** A value holder of one kind. The stored value always passed the check
      the constructor runs for that kind. */
  class Field {
    const kind: Kind
    var value: string

    ghost predicate Valid()
      reads this
    {
      ConstructorAccepts(kind, value)
    }

    /** The constructor's successful path. */
    constructor(kind: Kind, v: string)
      requires ConstructorAccepts(kind, v)
      ensures this.kind == kind && value == v && Valid()
    {
      this.kind := kind;
      value := v;
    }

    /** `Phone(v)`, `Birthday(v)` or `Name(v)`: a new field, or `None` where the
        constructor raises. */
    static method Create(kind: Kind, v: string) returns (r: Option<Field>)
      ensures r.None? <==> !ConstructorAccepts(kind, v)
      ensures r.Some? ==> fresh(r.value) && r.value.kind == kind && r.value.value == v && r.value.Valid()
    {
      if !Validate(kind, v) {
        return None;
      }
      var f := new Field(kind, v);
      r := Some(f);
    }

    /** The value setter: stores `v` when both checks pass; otherwise raises
        (`ok` false) and the old value stays. */
    method SetValue(v: string) returns (ok: bool)
      modifies this
      ensures ok <==> SetterAccepts(kind, v)
      ensures value == if ok then v else old(value)
      ensures old(Valid()) ==> Valid()
    {
      if !ValidateValue(kind, v) {
        return false;
      }
      if !Validate(kind, v) {
        return false;
      }
      value := v;
      ok := true;
    }
  }
}
