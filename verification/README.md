# Contact book with birthday reminders — a Dafny model

`bot_pickle.py` is a console assistant that keeps an address book of
contacts. Each contact has a name, a list of ten-character phone numbers and
an optional birthday. The assistant can add and change phones, look contacts
up, and list the colleagues to congratulate during the coming week, moving a
weekend birthday to the following Monday.

This project models the core of that program as pure Dafny functions and
proves what they do:

- `wrappers.dfy` (`Wrappers`): `Option` stands for `None`. `Result` stands
  for a value or the Python exception (`ValueError`, `KeyError`,
  `OverflowError`) that stops a call.
- `calendar.dfy` (`Calendar`): the parts of Python's `date` the program
  uses.
  - The proleptic Gregorian calendar over years 1..9999.
  - `toordinal`, and `weekday` with Monday as 0.
  - Field-by-field `<`, and `replace(year=…)`.
  - `+ timedelta(days=n)`, which raises OverflowError outside the
    supported range.
- `date_format.dfy` (`DateFormat`): the `DD.MM.YYYY` text form. This covers
  `strptime(…, "%d.%m.%Y")` and `strftime("%d.%m.%Y")`.
- `fields.dfy` (`Fields`): the `Name`, `Phone` and `Birthday` field checks.
- `records.dfy` (`Records`): `Record` and its phone operations. Each
  operation acts on the first entry with a given value.
- `address_book.dfy` (`AddressBook`): the book. It is a map from name to
  record, together with the keys in dict insertion order.
- `collect.dfy` (`Collecting`): the shape of the reminder loop, without the
  birthday logic. It visits the items in order, keeps the optional entry
  each one yields, and lets the first exception abort the whole loop.
- `birthdays.dfy` (`Birthdays`): `find_next_weekday` and
  `get_upcoming_birthdays`.
- `handlers.dfy` (`Handlers`): the `add` and `change` command handlers.

The clock reading `datetime.today().date()` is a parameter `today`. Each
handler returns the book it leaves behind, together with either its outcome
or the exception its error decorator turns into a message.

Where the code and its documented behaviour differ, the model follows the
code:

- `Name("")` is accepted. Only a missing name raises.
- `add_phone` with a value already on the record returns at once, without
  checking the length.
- `edit_phone` does not check the new value, so it can create two equal
  entries (`Records.EditMayDuplicate`).
- In `change_contact`, an unknown name is an ordinary outcome
  ("Контакт відсутній."), not an error. An unknown old phone makes
  `find_phone` raise ValueError. `find_phone` returns a `Phone` object, which
  is always truthy, so the "Телефон не знайдено." branch can never run.
- `add_contact` files the new empty record before it validates the phone. A
  bad phone for a new name therefore still leaves that empty record in the
  book.
- A birthday on a Saturday exactly seven days ahead passes the window test.
  It is reported for the Monday nine days ahead (`Birthdays.ShiftLeavesWindow`).
- A 29 February birthday makes `replace(year=…)` raise ValueError in a
  common year. The exception escapes the whole reminder scan.

## Model

| member | source | states |
|---|---|---|
| Fields.MakeName | bot_pickle.py:17-21 | fails with ValueError exactly when no name is given; any string, empty included, is kept unchanged |
| Fields.MakePhone | bot_pickle.py:24-30 | succeeds exactly when the string has length 10, keeping it unchanged; otherwise ValueError |
| Fields.MakeBirthday | bot_pickle.py:32-39 | succeeds exactly when the text is the DD.MM.YYYY rendering of a real date, and that date renders back to the text; otherwise ValueError |
| DateFormat.ParseDate | bot_pickle.py:36 | an accepted string names a valid date whose rendering is the string itself; a rejection is ValueError |
| DateFormat.FormatDate | bot_pickle.py:109 | the rendering is ten characters DD.MM.YYYY whose digit fields read back as the date |
| DateFormat.ParseFormat | bot_pickle.py:109-110 | with every year rendered as four digits, rendering a date with strftime and parsing it back with strptime gives the same date |
| DateFormat.ParseAcceptsRenderings | bot_pickle.py:36-39 | the parser accepts a string if and only if it is the rendering of some valid date |
| DateFormat.LeapDayParses | bot_pickle.py:36 | "29.02.2020" parses to 29 February 2020 |
| DateFormat.NonexistentDayRejected | bot_pickle.py:36-39 | "31.02.2020" is rejected with ValueError |
| Records.NewRecord | bot_pickle.py:42-46 | a new record has the given name, no phones and no birthday |
| Records.FirstIndex | bot_pickle.py:49-51 | finds the position of the first entry equal to the value, or reports that none exists |
| Records.FirstIndexAt | bot_pickle.py:49-51 | a position holding the value with no earlier occurrence is exactly where the scan stops |
| Records.AddPhone | bot_pickle.py:48-52 | a value already present leaves the record unchanged; a new value of the wrong length raises ValueError; otherwise the phone is appended at the end |
| Records.RemovePhone | bot_pickle.py:54-59 | ValueError exactly when the value is absent; otherwise the first matching entry is removed and the rest keep their order |
| Records.EditPhone | bot_pickle.py:61-66 | ValueError exactly when the old value is absent; otherwise only the first matching entry is rewritten, with no length check |
| Records.FindPhone | bot_pickle.py:68-72 | returns the value exactly when it is on the record; otherwise ValueError |
| Records.AddBirthday | bot_pickle.py:74-75 | stores the parsed date and keeps name and phones; a parse failure raises ValueError and stores nothing |
| Records.AddBirthdayOfRendering | bot_pickle.py:74-75 | entering the DD.MM.YYYY rendering of a date as the birthday stores exactly that date and changes nothing else |
| Records.AddPhoneIdempotent | bot_pickle.py:48-52 | adding the same phone twice gives the same record as adding it once |
| Records.AddThenFind | bot_pickle.py:48-72 | after a successful add the phone is found |
| Records.AddThenRemove | bot_pickle.py:48-59 | removing a freshly appended phone restores the original record |
| Records.PhoneCounts | bot_pickle.py:48-59 | a fresh add grows the list by exactly one and a remove shrinks it by exactly one |
| Records.AddKeepsNoDuplicates | bot_pickle.py:48-52 | adding keeps a repeat-free phone list repeat-free |
| Records.RemoveKeepsNoDuplicates | bot_pickle.py:54-59 | removing keeps a repeat-free phone list repeat-free |
| Records.DropAt | bot_pickle.py:56-57 | dropping one entry of a repeat-free list keeps every other value and no new repeats, and the dropped value sits between the kept prefix and suffix |
| Records.EditThenEditBack | bot_pickle.py:61-66 | editing to an unused value and back restores the record |
| Records.EditMayDuplicate | bot_pickle.py:61-66 | editing one phone to another's value leaves two equal entries |
| AddressBook.Empty | bot_pickle.py:84 | the empty book is valid and finds no name |
| AddressBook.Find | bot_pickle.py:89-90 | returns the record filed under the name if there is one, otherwise None; in a valid book the record carries that name |
| AddressBook.AddRecord | bot_pickle.py:85-87 | the book stays valid; the name now finds the record; every other name finds what it found before; an existing key keeps its place and a new key goes last |
| AddressBook.Delete | bot_pickle.py:92-93 | KeyError exactly when the name is absent; otherwise the name is gone, every other name is unchanged, the book stays valid and the other keys keep their order |
| AddressBook.RemoveKeyAt | bot_pickle.py:92-93 | dropping a key and its record keeps the book valid |
| AddressBook.Values | bot_pickle.py:107 | the records in key order, each filed under its own name |
| AddressBook.ValuesAfterAdd | bot_pickle.py:85-87 | a record added under a new name comes after all the others when the book is iterated |
| AddressBook.AddThenDelete | bot_pickle.py:85-93 | deleting a record just added under a new name restores the book |
| AddressBook.AddExistingIsIdentity | bot_pickle.py:85-87 | re-adding the record a name already holds changes nothing |
| Calendar.ToOrdinal | bot_pickle.py:113 | `date.toordinal()`: every valid date's day number is at least 1, and the days of January of year 1 are numbered 1 to 31 |
| Calendar.Weekday | bot_pickle.py:115-116 | `date.weekday()`: a value from 0 (Monday) to 6 (Sunday), with 0001-01-01 a Monday |
| Calendar.DaysBetween | bot_pickle.py:113 | `(to - from).days` is positive exactly when `from` comes first, and zero exactly for the same date |
| Calendar.Before | bot_pickle.py:111 | the `<` comparison of dates never holds between a date and itself |
| Calendar.BeforeIsStrictOrder | bot_pickle.py:111 | the `<` comparison of dates is transitive, and of two different dates exactly one comes first |
| Calendar.ReplaceYear | bot_pickle.py:110-112 | succeeds, keeping month and day, exactly when that day exists in the new year; otherwise ValueError |
| Calendar.OrdinalOrder | bot_pickle.py:111 | field-by-field date comparison agrees with ordinal comparison, and equal ordinals mean equal dates |
| Calendar.OrdinalRange | bot_pickle.py:100 | every valid date has an ordinal in 1..3652059; only 0001-01-01 has the first and only 9999-12-31 the last |
| Calendar.NextDay | bot_pickle.py:100 | the following day has the next ordinal; OverflowError exactly after 9999-12-31 |
| Calendar.PrevDay | bot_pickle.py:100 | the preceding day has the previous ordinal; OverflowError exactly before 0001-01-01 |
| Calendar.DayAfter | bot_pickle.py:100 | the next day within a month, the first of the next month, or 1 January of the next year is a valid date whose ordinal is one more, and the date before it is not the last supported day |
| Calendar.AddDays | bot_pickle.py:100 | adding n days succeeds exactly when the ordinal plus n stays in 1..3652059, and then moves the ordinal by n; otherwise OverflowError |
| Calendar.WeekdayAfter | bot_pickle.py:116-117 | moving a date by k days moves its weekday by k modulo 7 |
| Collecting.Collect | bot_pickle.py:107-121 | the loop fails exactly when some item's step fails, and reports no more entries than items |
| Collecting.CollectError | bot_pickle.py:107-121 | a failed loop fails with the error the step raised on one of the items |
| Collecting.CollectOne | bot_pickle.py:107-121 | the loop over one item gives that item's value, if any, or its error; with `CollectAppend`, each item fills its own slot of the output, in order |
| Collecting.CollectSound | bot_pickle.py:107-121 | every reported entry is the entry yielded by some item |
| Collecting.CollectComplete | bot_pickle.py:107-121 | every item that yields an entry has it in the report |
| Collecting.CollectAppend | bot_pickle.py:107-121 | running the loop over two runs of items reports the first run's entries before the second's |
| Birthdays.Project | bot_pickle.py:109-112 | the projection keeps month and day, is not before today, and falls in this year or the next; with every year rendered as four digits, it raises ValueError exactly when that day does not exist in the year it lands in |
| Birthdays.ProjectIsNextOccurrence | bot_pickle.py:109-112 | no date with the birthday's month and day lies between today and the projection |
| Birthdays.ProjectNotInPast | bot_pickle.py:113-115 | the day count from today to the projection is never negative |
| Birthdays.ProjectFailsOnlyOnLeapDayOrLastYear | bot_pickle.py:110-112 | with every year rendered as four digits, the projection raises only for a 29 February birthday or in the year 9999 |
| Birthdays.CongratulationDate | bot_pickle.py:116-117 | the result is a weekday; a weekday birthday is kept, a Saturday moves two days and a Sunday one day |
| Birthdays.RoomBeforeLastDay | bot_pickle.py:116-117 | the Monday after a weekend day always exists, so the shift never overflows |
| Birthdays.WeekendRoom | bot_pickle.py:116-117 | a weekend day's ordinal leaves room for the following Monday before the last supported day |
| Birthdays.Check | bot_pickle.py:108-121 | for one record: raises exactly when its projection raises; an entry is reported exactly for a birthday 0 to 7 days ahead, under the record's name and on the shifted date; the only error is ValueError |
| Birthdays.Scan | bot_pickle.py:107-123 | the scan raises exactly when some record's projection raises, and then raises ValueError; it reports no more entries than records |
| Birthdays.ScanErrorKind | bot_pickle.py:110-112 | the only error the loop lets escape is the ValueError from `replace(year=...)` |
| Birthdays.ScanOne | bot_pickle.py:107-121 | the scan of one record is exactly that record's check: its one entry, no entry, or its error; with `ScanAppend`, each record fills its own slot of the report, in order |
| Birthdays.CheckName | bot_pickle.py:118-120 | an entry for a record carries that record's name |
| Birthdays.ScanNames | bot_pickle.py:118-120 | every entry of the report carries the name of one of the records scanned |
| Birthdays.ScanNamesDistinct | bot_pickle.py:107-121 | records with pairwise different names are reported under pairwise different names, so nobody is reported twice |
| Birthdays.ScanErrors | bot_pickle.py:107-123 | the loop fails exactly when some record's projection raises |
| Birthdays.ScanSound | bot_pickle.py:107-123 | every reported entry announces some record that is due within the week |
| Birthdays.ScanComplete | bot_pickle.py:107-123 | every record due within the week is announced by some entry |
| Birthdays.ScanAppend | bot_pickle.py:107-123 | the report for two runs of records is the first run's report followed by the second's |
| Birthdays.UpcomingBirthdays | bot_pickle.py:102-123 | the book's report raises exactly when some contact's projection raises; otherwise each entry announces the contact it names, and every contact due within the week is named by an entry; no contact is named twice; the only error is ValueError |
| Birthdays.BookNamesDistinct | bot_pickle.py:105-121 | the book's report names each contact at most once, as the book's keys are distinct and each record is visited once |
| Birthdays.BookErrors | bot_pickle.py:102-123 | the report raises exactly when some contact's projection raises |
| Birthdays.BookSound | bot_pickle.py:102-123 | each entry names a contact in the book and announces that contact's birthday |
| Birthdays.BookComplete | bot_pickle.py:102-123 | each contact due within the week is named by an entry |
| Birthdays.NewContactReportedLast | bot_pickle.py:102-123 | after a contact is added under a new name, the report is the old report followed by the new contact's entry |
| Birthdays.FindNextWeekday | bot_pickle.py:95-100 | the result lies exactly the computed number of days after the start; for a non-negative weekday it fails exactly when that passes 9999-12-31, and every failure is OverflowError |
| Birthdays.DaysAhead | bot_pickle.py:97-99 | for a target weekday 0..6 the gap is between 1 and 7 days |
| Birthdays.AheadLandsOnWeekday | bot_pickle.py:97-99 | stepping the computed gap from the start weekday lands on the target weekday modulo 7 |
| Birthdays.NextWeekdayLands | bot_pickle.py:95-100 | the date returned falls on the requested weekday modulo 7 |
| Birthdays.NextWeekdayIsNearest | bot_pickle.py:95-100 | no day strictly inside the gap falls on the requested weekday, so the result is the nearest such day after the start |
| Birthdays.NoEarlierMatch | bot_pickle.py:97-99 | counting forward from a weekday, the target weekday does not come up before the computed gap |
| Birthdays.SaturdayBirthdayMovesToMonday | bot_pickle.py:115-121 | with today Monday 2024-06-10, a 15 June birthday (a Saturday) is reported for Monday 17 June |
| Birthdays.SaturdayMovesToMonday | bot_pickle.py:116-117 | Saturday 2024-06-15 is congratulated on Monday 2024-06-17 |
| Birthdays.PastBirthdayRollsToNextYear | bot_pickle.py:111-112 | with today 2024-06-10, a 5 June birthday projects to 2025-06-05 and is not reported |
| Birthdays.ShiftLeavesWindow | bot_pickle.py:115-117 | a Saturday exactly seven days ahead is reported for the Monday nine days ahead |
| Birthdays.LeapDayBirthdayRaises | bot_pickle.py:110 | a 29 February birthday raises ValueError in the common year 2023 |
| Handlers.AddContact | bot_pickle.py:168-170 | fewer than two arguments raises ValueError and leaves the book alone; otherwise it is the unpacked handler |
| Handlers.AddContactWith | bot_pickle.py:168-179 | keeps the book valid and leaves other names alone; reports "added" exactly for a new name; raises ValueError exactly for a new, non-empty phone of the wrong length, which still leaves the (possibly new, empty) record filed; otherwise the phone is appended unless empty or already there; the record keeps its name and birthday, and a new record has no birthday |
| Handlers.ChangeContact | bot_pickle.py:182-184 | fewer than three arguments raises ValueError and leaves the book alone; otherwise it is the unpacked handler |
| Handlers.ChangeContactWith | bot_pickle.py:182-197 | a new phone of the wrong length raises ValueError before the book is consulted; an unknown name is reported as missing; an unknown old phone raises ValueError; only a successful change touches the book, rewriting the first matching phone of that one record |
| Handlers.AddContactRepeat | bot_pickle.py:168-179 | repeating a successful add reports an update and changes nothing |
| Handlers.ChangeThenChangeBack | bot_pickle.py:182-197 | changing a phone to an unused value and back restores the book |
| Handlers.ShortNumberRefused | bot_pickle.py:185-186 | a nine-digit new number is refused and the old number stays |
| Handlers.BadPhoneLeavesEmptyContact | bot_pickle.py:172-177 | adding a new name with a three-character phone raises ValueError yet files an empty record under the name |

## Left out

- The command loop, `parse_input`, the printed messages and the error
  decorators are not modelled. The decorators only turn an exception into
  text, and the model returns the exception kind instead.
- The `phone`, `add-birthday`, `show-birthday` and `birthdays` handlers are
  outside the modelled core. They are thin wrappers around `find`,
  `add_birthday` and `get_upcoming_birthdays`, which are modelled.
- Saving and loading the book with `pickle` is file I/O and is not modelled.
- `__str__` and `__repr__` are display only and are not modelled.
- The `"%Y.%m.%d"` text of the congratulation date is not modelled. Reports
  carry the date itself.
- `datetime.today()` is a parameter `today`, because the model has no clock.
- DateFormat.ParseDate: accepts only the strict ten-character `DD.MM.YYYY`
  form. `strptime`'s lenient inputs, such as one-digit days or months, are
  rejected here although Python accepts them.
- Fields.MakeBirthday: inherits the same strict form from
  `DateFormat.ParseDate`.
- DateFormat.FormatDate pads every year to four digits. Python's `strftime`
  renders years below 1000 in a platform-dependent way.
- Birthdays.Project: does not raise for a birthday before year 1000. With
  glibc's `strftime`, `%Y` renders such a year with fewer than four digits.
  `strptime`'s `%Y` then refuses it, so lines 109-110 raise ValueError for
  every such birthday, although `add_birthday` accepts one such as
  `01.01.0999`. The model follows the four-digit rendering instead.
- Birthdays.ProjectFailsOnlyOnLeapDayOrLastYear: does not cover that
  same glibc case. It holds only under the four-digit rendering of
  `DateFormat.FormatDate`.
- `find_next_weekday` is written inside `AddressBook` without `self`, and
  nothing in the program calls it. It is modelled as a plain function of a
  date and a weekday.
