# Contact book: validated fields, records and the address book

This project models the core of a small contact-book manager (`main.py`).
It has three layers:

- **Fields.** `Field` is a value holder with three kinds: `Name`, `Phone`
  and `Birthday`. The constructor runs `validate`. The value setter runs
  `validate_value` and then `validate`. `Phone` overrides both checks with
  its rule: all digits, ten characters. `Birthday` overrides only
  `validate`, which requires `datetime.strptime(text, "%Y-%m-%d")` to
  succeed, and it keeps the raw text. `Name` overrides only
  `validate_value` (letters only). So a name is checked on reassignment but
  never at construction.
- **Record.** A record has a name field, an ordered list of phone fields and
  an optional birthday field. It supports adding, removing, finding and
  editing phones, and counting the days to the next birthday.
- **AddressBook.** An insertion-ordered dictionary from a name to a record.
  It is saved in full after each change. It also offers exact lookup and a
  search that can append the same record more than once.

Modules, one per layer, plus two helpers:

- `Outcomes` (outcomes.dfy): `Option`, and `Outcome` for a call that may
  raise. The code raises `ValueError` from the field checks and from
  `edit_phone` when no phone matches (main.py:74), and `AttributeError` in
  the birthday countdown (main.py:85). The model does not tell them apart.
- `Text` (text.dfy): ASCII `isdigit`, `isalpha`, `lower` and the substring
  test `a in b`.
- `Calendar` (calendar.dfy): the proleptic Gregorian calendar of Python's
  `datetime`, covering years 1 to 9999 and the day ordinal. It also holds
  the `strptime` parse and the birthday countdown as pure functions.
- `Fields` (fields.dfy): the checks, and class `Field`. Its setter updates
  `value` in place.
- `Contacts` (contacts.dfy): class `Record` and the phone-list
  specification functions.
- `Book` (book.dfy): the dictionary as a value (`BookState`), its
  operations and the search specification. It also holds class
  `AddressBook`. Its ghost fields `disk` and `saves` stand for the file
  contents and the number of writes.

Three behaviours of the code worth knowing, all modelled as written:

- A `Name` is not checked when it is constructed.
- A birthday is stored as its text, not as a date.
- `strptime` accepts more spellings than `YYYY-MM-DD`. Its `%m` also reads
  one digit (`2020-1-05`). Its `%d` also reads one digit, or a space and a
  digit (`2020-01-5`, `2020-01- 5`).

The parse follows the regular expressions of CPython's `_strptime`. `%Y` is
exactly four digits, `%m` is `1[0-2]|0[1-9]|[1-9]` and `%d` is
`3[01]|[12]\d|0[1-9]|[1-9]| [1-9]`. The whole text must be consumed. The
result must then be a date that `datetime` accepts, in a year from 1 to
9999.

The countdown takes the clock reading as a parameter, `now`: a date plus the
microseconds since its midnight. It compares `now` with this year's midnight
on the birthday's month and day. If `now` is later, even by one microsecond
on the birthday itself, it moves to next year. It then floors the difference
to whole days, as `timedelta.days` does. If either `datetime(...)` call names
a date that does not exist, the call raises, and the model returns `Fail`.
This happens for 29 February when the target year has no such day, and when
the next year would be 10000.

## Model

| member | source | states |
|---|---|---|
| `Text.ContainsIffOccurs` | main.py:124-127 | `needle in hay` holds exactly when the needle occurs at some position of the hay |
| `Text.Lower` | main.py:124 | `lower()` keeps the length and lowers each character; letters stay letters |
| `Fields.ValidateValue` | main.py:33-35 | `validate_value` per kind: a phone must meet its number rule, a name must be letters (main.py:51-53), so a name or phone must be non-empty, and a birthday inherits the base no-op (main.py:22-23) |
| `Fields.Validate` | main.py:37-39 | `validate` per kind: a phone delegates to its number rule, a birthday must parse (main.py:43-47), a name inherits the base no-op (main.py:25-26); an accepted phone or birthday is 8 to 10 characters |
| `Fields.ConstructorAccepts` | main.py:7-10 | the constructor's check: a name accepts any text; a phone succeeds iff the text is exactly ten digits |
| `Fields.SetterAccepts` | main.py:17-20 | the setter's checks: a name must be non-empty letters; a phone or birthday meets the constructor's rule; whatever the setter accepts, the constructor would too |
| `Fields.BirthdayAcceptsExactlySpellings` | main.py:43-47 | a birthday is accepted iff its text spells a valid date in a `%Y-%m-%d` shape |
| `Fields.NameChecksOnlyOnUpdate` | main.py:50-53 | `"Anna 1"` and `""` build a name but are refused by its setter |
| `Fields.Field.Create` | main.py:7-10 | construction fails iff the kind's `validate` fails; on success the field holds exactly the input |
| `Fields.Field.SetValue` | main.py:17-20 | stores exactly the new value iff both checks pass, otherwise the old value stays; the field's invariant is kept |
| `Calendar.ParseDate` | main.py:45 | an accepted text names a valid date, is 8 to 10 characters long and has `-` after the year |
| `Calendar.SpellingParses` | main.py:45 | every `%Y-%m-%d` spelling of a valid date parses back to that date |
| `Calendar.FormatParses` | main.py:45 | the fully padded `YYYY-MM-DD` text of a valid date parses back to that date |
| `Calendar.ParsedIsSpelling` | main.py:45 | every accepted text is a spelling of the date it yields |
| `Calendar.DayNumberOrder` | main.py:86 | the day ordinal follows calendar order both ways, and is equal only for equal dates |
| `Calendar.DaysToBirthday` | main.py:82-88 | none iff there is no birthday; otherwise the floored whole days to this year's midnight on the birthday's month and day, or to next year's once now is past it, and `Fail` when that date does not exist (its range, earliest-occurrence and failure lemmas follow) |
| `Calendar.DaysToBirthdayRange` | main.py:81-88 | a countdown with a birthday is a number of days from 0 to 365 |
| `Calendar.DaysToBirthdayIsNextOccurrence` | main.py:84-88 | the countdown is the whole days, floored, to the earliest midnight on the birthday's month and day that is not earlier than now |
| `Calendar.DaysToBirthdayFails` | main.py:85-87 | the countdown raises exactly for a 29 February birthday when this year has none or it is already past, and for another birthday already past in year 9999 |
| `Calendar.BirthdayTodayAtMidnight` | main.py:81-88 | on the birthday at midnight the countdown is 0 |
| `Calendar.BirthdayYesterday` | main.py:81-88 | from 2024-06-16 at midnight a 15 June birthday is 364 days away |
| `Calendar.BirthdayTodayAfterMidnight` | main.py:86-88 | one microsecond after midnight on the birthday the countdown moves to next year (364) |
| `Contacts.Without` | main.py:67 | the kept entries are exactly the old ones other than the argument, and none is added |
| `Contacts.WithoutConcat` | main.py:67 | filtering splits over concatenation, so the kept entries keep their relative order |
| `Contacts.WithoutCounts` | main.py:67 | every entry other than the argument keeps its number of copies, and the argument's copies all go |
| `Contacts.WithoutAbsent` | main.py:67 | with no matching entry the list is unchanged |
| `Contacts.FirstIndex` | main.py:77-79 | the position `find_phone`'s loop stops at holds the number and no earlier one does |
| `Contacts.BirthdayText` | main.py:60 | an absent or empty birthday becomes none; any other text is kept |
| `Contacts.DaysToBirthdayAsWritten` | main.py:85 | as written, every call with a birthday raises |
| `Contacts.AsWrittenRaisesOnBirthday` | main.py:85 | for birthday `2000-06-15` at 2024-06-15 00:00 the code raises while the intended countdown is 0 |
| `Contacts.DaysToBirthdayOfText` | main.py:81-88 | the countdown over the stored text: none without a birthday, otherwise 0 to 365 days when it does not raise |
| `Contacts.Record.constructor` | main.py:57-60 | a new record holds the given name unchecked, no phones and the birthday text (none when absent or empty) |
| `Contacts.Record.Create` | main.py:57-60 | `Record(name, birthday)` fails iff a given non-empty birthday fails its check |
| `Contacts.Record.AddPhone` | main.py:62-64 | a valid number is appended as one entry at the end, duplicates allowed; an invalid one raises and nothing changes |
| `Contacts.Record.RemovePhone` | main.py:66-67 | the phone list becomes exactly the entries not equal to the argument, in order; name and birthday are untouched |
| `Contacts.Record.FindPhone` | main.py:76-79 | returns the first phone entry equal to the number, or none iff no entry equals it |
| `Contacts.Record.EditPhone` | main.py:69-74 | succeeds iff some entry equals the old number and the new one is valid; then only the first match changes; otherwise no entry changes |
| `Contacts.Record.DaysToBirthday` | main.py:81-88 | none iff the record has no birthday; otherwise a countdown of 0 to 365 days, or a raise |
| `Book.Put` | main.py:113 | `self.data[name] = record`: the contact sits under its name, other keys keep their entries, and the old key order is a prefix of the new one (an existing key keeps its place, a new key goes last) |
| `Book.Remove` | main.py:117-118 | `del self.data[name]` when present: the key is gone from entries and order, other keys keep their entries and stay listed, and an absent key changes nothing |
| `Book.PhoneHits` | main.py:126-128 | the inner loop appends only this contact, at most once per phone |
| `Book.Hits` | main.py:124-128 | one record's turn of the loop appends only that record, at most `1 + len(phones)` times |
| `Book.SearchIn` | main.py:121-129 | the results over a run of contacts hold only contacts from that run |
| `Book.SearchAll` | main.py:121-129 | `search` over the book's values in key order; every result is the contact stored under its own name |
| `Book.PutThenLookup` | main.py:113 | after `add_record` the contact is found under its name, other keys are unaffected, and a new key is the only one added |
| `Book.RemoveThenLookup` | main.py:117-118 | after `delete` the key is gone, other keys are unaffected, the key order loses exactly that key and keeps the others' copies (their relative order is kept by the filter, see `Contacts.WithoutConcat`), and an absent key changes nothing |
| `Book.HitsEmptyQuery` | main.py:123-128 | with the empty query a contact is appended `1 + len(phones)` times |
| `Book.HitsCount` | main.py:123-128 | a contact is appended once when its lowered name contains the lowered query, plus once per phone containing the query |
| `Book.SearchInConcat` | main.py:123 | results follow the book's key order |
| `Book.SearchMembers` | main.py:121-129 | a contact is in the results iff it is stored in the book and its name or one of its phones matches |
| `Book.AddressBook.constructor` | main.py:96-106 | a book starts with the stored dictionary, or empty when there is no file, and writes nothing |
| `Book.AddressBook.SaveData` | main.py:108-110 | the file holds the whole current dictionary afterwards |
| `Book.AddressBook.AddRecord` | main.py:112-114 | stores the record under its name, replacing an earlier one in its place; `find` then returns it; one save follows |
| `Book.AddressBook.Delete` | main.py:116-119 | removes the key when present and saves once; an absent key changes nothing and is not saved |
| `Book.AddressBook.Find` | main.py:131-132 | returns the contact stored under exactly that name, or none iff the name is not a key |
| `Book.AddressBook.Search` | main.py:121-129 | returns exactly the search results over the book's keys, in order |

## Findings

| source | as written | input that shows it | evidently intended | confidence | as-written member | corrected member |
|---|---|---|---|---|---|---|
| main.py:85 | `self.birthday.value.month` reads `.month` off the stored birthday text, and a `str` has no such attribute, so the call raises `AttributeError` | a record with birthday `"2000-06-15"`, at any moment | read the month and day of the date the birthday check parsed | high (not executed) | `Contacts.DaysToBirthdayAsWritten` | `Contacts.DaysToBirthdayOfText` |

`Contacts.Record.DaysToBirthday` uses the corrected countdown.

## Left out

- Pickle load and save (main.py:101-110) are file I/O in a library format.
  A save is a ghost copy of the dictionary plus a save count. A load is
  the constructor's `stored` argument: `None` when the file is missing,
  otherwise a dictionary taken to be well formed. Read and write errors
  are not modelled.
- `datetime.now()` (main.py:84) is a clock read. It becomes the `now`
  parameter.
- The `__str__` renderings (main.py:28-29, main.py:90-92) produce display
  text only.
- `isdigit`, `isalpha`, `lower` and the `\d` of `strptime` are modelled over
  ASCII. Their Unicode behaviour is out of scope.
- Error messages and exception kinds are not modelled. Every raise becomes
  one failure outcome (`Fail`, `None` from `Create`, or `ok == false`).
- The `UserDict` base class and the default file path (main.py:95-98) are
  left out.
- The book stores each record as a value (`Contact`), a snapshot taken by
  `add_record`. The code stores the `Record` object itself. A later change
  to that object, or to a phone object returned by `find_phone`, would show
  in the book without a save. This aliasing is not modelled.
- The value setter's `ok` result stands for "did not raise". Callers see no
  exception object.
- Only `str` values are modelled. A non-`str` argument is not. One without
  `isdigit` or `isalpha`, such as an `int` or `None`, raises
  `AttributeError` in the phone check (main.py:34) and in the name setter
  (main.py:52). `bytes` has those methods, so a ten-digit `bytes` phone and
  a `bytes` name pass both checks. For a birthday, any non-`str` raises
  `TypeError` in `strptime` (main.py:45), which the `except ValueError` at
  main.py:46 does not catch. A name is not checked at construction (main.py:7-10), so a
  non-text name is accepted and fails only later, for example at `lower()`
  in `search` (main.py:124).
