/** A contact (`Record`): a name field, an ordered list of phone fields and
    an optional birthday field, with the phone-list operations and the
    birthday countdown. */
module Contacts {
  import opened Outcomes
  import opened Fields
  import Calendar

  /** A contact as a value: its name, its phone numbers in list order and the
      raw text of its birthday. This is what the address book stores. */
  datatype Contact = Contact(name: string, phones: seq<string>, birthday: Option<string>)

  // ---------------------------------------------------------------------
  // The phone list, as values

  /** The list comprehension of `remove_phone`: the entries different from
      `x`, in their order. */
  function Without(s: seq<string>, x: string): (r: seq<string>)
    ensures forall y :: y in r <==> y in s && y != x
    ensures |r| <= |s|
  {
    if s == [] then []
    else if s[|s| - 1] == x then Without(s[..|s| - 1], x)
    else Without(s[..|s| - 1], x) + [s[|s| - 1]]
  }

  /** Filtering splits over concatenation, so the kept entries keep their
      relative order. */
  lemma {:induction false} WithoutConcat(a: seq<string>, b: seq<string>, x: string)
    ensures Without(a + b, x) == Without(a, x) + Without(b, x)
    decreases |b|
  {
    if b == [] {
      assert a + b == a;
    } else {
      assert (a + b)[..|a + b| - 1] == a + b[..|b| - 1];
      WithoutConcat(a, b[..|b| - 1], x);
    }
  }

  /** Exactly the entries equal to `x` go; every other entry keeps its count. */
  lemma {:induction false} WithoutCounts(s: seq<string>, x: string)
    ensures multiset(Without(s, x)) == multiset(s)[x := 0]
  {
    if s != [] {
      var init := s[..|s| - 1];
      WithoutCounts(init, x);
      assert s == init + [s[|s| - 1]];
    }
  }

  /** With no entry equal to `x`, nothing changes. */
  lemma {:induction false} WithoutAbsent(s: seq<string>, x: string)
    requires x !in s
    ensures Without(s, x) == s
  {
    if s != [] {
      WithoutAbsent(s[..|s| - 1], x);
      assert s == s[..|s| - 1] + [s[|s| - 1]];
    }
  }

  /** The position of the first entry equal to `x`: the one `find_phone`'s
      loop stops at. */
  function FirstIndex(s: seq<string>, x: string): (i: nat)
    requires x in s
    ensures i < |s| && s[i] == x && x !in s[..i]
  {
    if s[0] == x then 0
    else
      var i := FirstIndex(s[1..], x);
      assert s[1..][..i] == s[1..i + 1];
      1 + i
  }

  /** The values held by a list of fields, in order. */
  function ValuesOf(ps: seq<Field>): seq<string>
    reads ps
  {
    seq(|ps|, i requires 0 <= i < |ps| reads ps => ps[i].value)
  }

  /** `Birthday(birthday) if birthday else None`: no birthday, or the empty
      text, gives none. */
  function BirthdayText(birthday: Option<string>): (r: Option<string>)
    ensures r.Some? <==> birthday.Some? && birthday.value != ""
    ensures r.Some? ==> r == birthday
  {
    match birthday
    case None => None
    case Some(t) => if t == "" then None else Some(t)
  }

  /** Whether `Record(name, birthday)` succeeds: the name is not checked, and a
      given non-empty birthday must pass the birthday check. */
  predicate RecordArgsAccepted(birthday: Option<string>) {
    BirthdayText(birthday).None? || ConstructorAccepts(BirthdayField, BirthdayText(birthday).value)
  }

  // ---------------------------------------------------------------------
  // The birthday countdown on a contact's stored text

  /** `days_to_birthday` as the source has it: line 85 reads `.month` and `.day`
      off the birthday's value, which is the stored text, so every call with a
      birthday raises `AttributeError`. */
  function DaysToBirthdayAsWritten(birthday: Option<string>, now: Calendar.Moment): (r: Outcome<Option<int>>)
    ensures birthday.Some? ==> r == Fail
  {
    match birthday
    case None => Ok(None)
    case Some(_) => Fail
  }

  /** The intended countdown: the date the birthday check parsed from the
      stored text, counted from `now`. */
  function DaysToBirthdayOfText(birthday: Option<string>, now: Calendar.Moment): (r: Outcome<Option<int>>)
    requires Calendar.ValidMoment(now)
    requires birthday.Some? ==> ConstructorAccepts(BirthdayField, birthday.value)
    ensures birthday.None? <==> r == Ok(None)
    ensures r.Ok? && r.value.Some? ==> 0 <= r.value.value <= 365
  {
    match birthday
    case None => Ok(None)
    case Some(t) =>
      var b := Calendar.ParseDate(t).value;
      Calendar.DaysToBirthdayRange(b, now);
      Calendar.DaysToBirthday(Some(b), now)
  }

  /** The two differ on an ordinary birthday: as written the call raises,
      while the intended countdown on the day itself, at midnight, is 0. */
  lemma AsWrittenRaisesOnBirthday()
    ensures var now := Calendar.Moment(Calendar.Date(2024, 6, 15), 0);
            DaysToBirthdayAsWritten(Some("2000-06-15"), now) == Fail &&
            Calendar.ParseDate("2000-06-15") == Some(Calendar.Date(2000, 6, 15)) &&
            DaysToBirthdayOfText(Some("2000-06-15"), now) == Ok(Some(0))
  {
    var d := Calendar.Date(2000, 6, 15);
    Calendar.SpellingParses(d, false, Calendar.TwoDigits);
    assert Calendar.Spelling(d, false, Calendar.TwoDigits) == "2000-06-15";
    Calendar.BirthdayTodayAtMidnight();
  }

  // ---------------------------------------------------------------------
  // The record

  class Record {
    const name: Field
    var phones: seq<Field>
    const birthday: Field?

    /** Field kinds are fixed, every stored value passed its check, and each
        phone entry is its own object. */
    ghost predicate Valid()
      reads this, phones, birthday
    {
      name.kind == NameField &&
      (birthday != null ==> birthday.kind == BirthdayField && birthday.Valid()) &&
      (forall i :: 0 <= i < |phones| ==> phones[i].kind == PhoneField && phones[i].Valid()) &&
      (forall i, j :: 0 <= i < j < |phones| ==> phones[i] != phones[j])
    }

    /** The phone numbers, in list order. */
    function PhoneValues(): seq<string>
      reads this, phones
    {
      ValuesOf(phones)
    }

    /** The contact this record currently holds, as a value. */
    function Snapshot(): Contact
      reads this, name, phones, birthday
    {
      Contact(name.value, PhoneValues(), if birthday == null then None else Some(birthday.value))
    }

    /** The successful path of `Record(name, birthday)`. */
    constructor(nameText: string, birthdayText: Option<string>)
      requires RecordArgsAccepted(birthdayText)
      ensures Valid()
      ensures Snapshot() == Contact(nameText, [], BirthdayText(birthdayText))
    {
      name := new Field(NameField, nameText);
      phones := [];
      match BirthdayText(birthdayText)
      case None =>
        birthday := null;
      case Some(t) =>
        birthday := new Field(BirthdayField, t);
    }

    /** `Record(name, birthday)`: a new record, or `None` where the birthday
        check raises. */
    static method Create(nameText: string, birthdayText: Option<string>) returns (r: Option<Record>)
      ensures r.None? <==> !RecordArgsAccepted(birthdayText)
      ensures r.Some? ==> fresh(r.value) && r.value.Valid()
      ensures r.Some? ==> r.value.Snapshot() == Contact(nameText, [], BirthdayText(birthdayText))
    {
      if !RecordArgsAccepted(birthdayText) {
        return None;
      }
      var rec := new Record(nameText, birthdayText);
      r := Some(rec);
    }

    /** `add_phone`: a valid number is appended as a new entry (duplicates
        allowed); an invalid one raises and the list stays. */
    method AddPhone(number: string) returns (ok: bool)
      requires Valid()
      modifies this
      ensures Valid()
      ensures ok <==> IsPhoneNumber(number)
      ensures Snapshot() == old(Snapshot()).(phones := if ok then old(PhoneValues()) + [number] else old(PhoneValues()))
    {
      var created := Field.Create(PhoneField, number);
      match created
      case None =>
        ok := false;
      case Some(p) =>
        phones := phones + [p];
        ok := true;
    }

    /** `remove_phone`: the list is rebound to the entries whose value differs
        from `number`; with no match nothing changes and nothing raises. */
    method RemovePhone(number: string)
      requires Valid()
      modifies this
      ensures Valid()
      ensures Snapshot() == old(Snapshot()).(phones := Without(old(PhoneValues()), number))
    {
      var kept: seq<Field> := [];
      var i := 0;
      while i < |phones|
        invariant 0 <= i <= |phones|
        invariant ValuesOf(kept) == Without(ValuesOf(phones[..i]), number)
        invariant forall k :: 0 <= k < |kept| ==> kept[k] in phones[..i]
        invariant forall j, k :: 0 <= j < k < |kept| ==> kept[j] != kept[k]
      {
        assert ValuesOf(phones[..i + 1]) == ValuesOf(phones[..i]) + [phones[i].value];
        if phones[i].value != number {
          kept := kept + [phones[i]];
        }
        i := i + 1;
      }
      assert phones[..i] == phones;
      phones := kept;
    }

    /** `find_phone`: the first entry whose value is `number`, or `None`. */
    method FindPhone(number: string) returns (p: Field?)
      ensures p == null <==> number !in PhoneValues()
      ensures p != null ==> p == phones[FirstIndex(PhoneValues(), number)]
    {
      var i := 0;
      while i < |phones|
        invariant 0 <= i <= |phones|
        invariant number !in PhoneValues()[..i]
      {
        if phones[i].value == number {
          assert PhoneValues()[i] == number;
          ghost var first := FirstIndex(PhoneValues(), number);
          assert PhoneValues()[..first + 1][first] == number;
          return phones[i];
        }
        assert PhoneValues()[..i + 1] == PhoneValues()[..i] + [phones[i].value];
        i := i + 1;
      }
      assert PhoneValues()[..i] == PhoneValues();
      return null;
    }

    /** `edit_phone`: the first entry equal to `oldNumber` takes `newNumber`
        through the value setter. It raises when no entry matches or the new
        number is invalid, and then no entry changes. */
    method EditPhone(oldNumber: string, newNumber: string) returns (ok: bool)
      requires Valid()
      modifies phones
      ensures Valid()
      ensures ok <==> oldNumber in old(PhoneValues()) && IsPhoneNumber(newNumber)
      ensures ok ==> PhoneValues() == old(PhoneValues())[FirstIndex(old(PhoneValues()), oldNumber) := newNumber]
      ensures !ok ==> PhoneValues() == old(PhoneValues())
      ensures Snapshot().name == old(Snapshot().name) && Snapshot().birthday == old(Snapshot().birthday)
    {
      var p := FindPhone(oldNumber);
      if p == null {
        return false;
      }
      ghost var k := FirstIndex(PhoneValues(), oldNumber);
      ok := p.SetValue(newNumber);
      assert forall j :: 0 <= j < |phones| && j != k ==> phones[j] != p;
    }

    /** The intended `days_to_birthday`, with `now` as the clock reading. */
    function DaysToBirthday(now: Calendar.Moment): (r: Outcome<Option<int>>)
      reads this, phones, birthday
      requires Valid() && Calendar.ValidMoment(now)
      ensures birthday == null <==> r == Ok(None)
      ensures r.Ok? && r.value.Some? ==> 0 <= r.value.value <= 365
    {
      DaysToBirthdayOfText(if birthday == null then None else Some(birthday.value), now)
    }
  }
}
