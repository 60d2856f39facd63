# Contact book assistant bot, modelled in Dafny

This project models the core of a small command-line assistant bot that keeps an
address book. It covers:

- **Fields.** `Name`, `Phone` and `Birthday` each either store a validated value or raise `ValueError`.
- **`Record`.** A name, an ordered list of ten-digit phone numbers and an optional birthday, changed in place.
- **`AddressBook`.** An insertion-ordered dict from names to records, including `get_upcoming_birthdays`.
- **Command handlers.** The handlers of `main.py` that parse a line, act on the one shared book and turn raised errors into the text the bot prints.

The model keeps the source's own form.

- **Objects.** `Record` and `AddressBook` are classes, and their methods change fields in place.
- **Values.** Each class has a value view: `Contacts.Contact` for a record and `Directory.Book` for the book. The value functions say what every operation does.
- **Method contracts.** Each method's contract ties its effect on the object to those functions.
- **Imperative handlers.** The handlers that change the book (`Bot`) mutate the shared `AddressBook` and its `Record`s. Each one is proved to leave the book in the state, and print the text, that the matching pure function in `Commands` gives.
- **Loops.** `edit_phone`, `find_phone`, `show_all`, `birthdays` and `get_upcoming_birthdays` are loops with invariants.

Modules, from the bottom up:

| module | what it is |
|---|---|
| `Wrappers` | `Result`/`Option` and the three exception kinds (`ValueError`, `IndexError`, `KeyError`) |
| `Lists` | `list.index`, `list.remove`, in-place replacement of the first match |
| `Text` | ASCII `isspace`, `isdigit`, `strip`, `split()`, `split(c)`, `lower`, `join`, zero-padded numbers |
| `Calendar` | proleptic-Gregorian dates of years 1..9999, `toordinal`, `weekday` (Monday is 0), `replace(year=...)`, `strftime("%d.%m.%Y")`, the weekend shift |
| `Fields` | `Name`, `Phone`, `Birthday` (the `%d.%m.%Y` grammar of `strptime` written out) |
| `Contacts` | a record as a value, its operations and `__str__` |
| `Records` | the `Record` class |
| `Directory` | the address book as a value: key order plus map, `add_record`, `find`, `delete` |
| `Upcoming` | `get_upcoming_birthdays` on values, with the reference date as a parameter |
| `AddressBooks` | the `AddressBook` class |
| `Commands` | `parse_input`, `input_error` and every handler on book values |
| `Bot` | the handlers that mutate the shared book or loop over it |

Design decisions worth knowing:

- **Last write wins.** A dict is a key sequence plus a map. Overwriting an existing key keeps its position; a new key goes to the end (`Directory.AddRecordOrder`).
- **Lookup by raw text.** `add_record` keys a record by its *stripped* name, but `find` looks up the text exactly as given (`Directory.PaddedNameNotFound`).
- **`add_contact` stores before validating.** A new record is stored before the phone is validated, so a refused phone still leaves a phone-less record in the book (`Commands.AddContactBadPhone`, `Commands.ShortPhoneLeavesRecord`).
  - A plain reading of the bot's behaviour suggests that `add Test 123` leaves the book unchanged.
  - The code (main.py:69-75) does not do that, and the model follows the code.
- **Impossible dates are errors.** `date.replace(year=...)` raising `ValueError` is an error result. This happens for 29 February in a common year, and for year 10000 after a birthday has passed in 9999. No "28 February" or "1 March" policy is invented. One such contact makes the whole `birthdays` command print `Помилка значення: ...` (`Upcoming.UpcomingFails`).
- **The `%d` grammar.** `strptime`'s `%d` also admits a space followed by a digit (" 1"). `%d` and `%m` take one or two digits, and `%Y` exactly four. Year 0 passes the grammar and is refused as a date.
- **Whole-book preconditions.** `Bot` handlers require `AddressBook.Valid()`: keys listed once each, each record stored under its own name, every phone ten digits and every birthday a real date. Every handler proves it keeps this invariant.

## Model

| member | source | states |
|---|---|---|
| Lists.IndexOf | contact_book.py:69-71 | the position found holds the element and no earlier position does |
| Lists.RemoveFirst | contact_book.py:63 | `list.remove` takes out exactly the first occurrence and keeps everything before and after it in order |
| Lists.ReplaceFirst | contact_book.py:69-71 | overwriting the first match keeps the length and every other position |
| Lists.RemoveDistinct | contact_book.py:106 | removing a key from a list without repeats keeps it without repeats and removes that key and nothing else |
| Text.Strip | contact_book.py:20-22 | `strip()` is empty exactly when the text is all whitespace, and otherwise starts and ends with a non-space |
| Text.StripKeepsMiddle | contact_book.py:22 | what `strip()` keeps is one contiguous piece of the input with only whitespace on either side |
| Text.StripUnchanged | contact_book.py:22 | text that neither starts nor ends with whitespace is not changed by `strip()` |
| Text.Lower | main.py:45 | `lower()` keeps the length, lower-cases ASCII capitals and keeps every other character |
| Text.Split | main.py:44 | `split()` with no separator: the maximal runs of non-whitespace, in order; pinned down for every input by `Text.SplitBlank`, `Text.SplitWord` and `Text.SplitSpaces` |
| Text.SplitBlank | main.py:44 | all-whitespace text (the empty text included) splits into no words |
| Text.SplitWord | main.py:44 | one non-empty word without whitespace splits into exactly that word |
| Text.SplitSpaces | main.py:44 | a non-empty whitespace run of any length and kind separates: the words of `x + run + y` are the words of `x` followed by the words of `y` |
| Text.SplitAround | main.py:44 | whitespace before and after some text adds no words |
| Text.SplitStrip | main.py:44 | `split()` ignores whitespace at the ends, so `strip()` before it changes nothing |
| Text.SplitTokens | main.py:44 | every word `split()` yields is non-empty and holds no whitespace |
| Text.Join | main.py:129 | `sep.join(xs)`: the pieces in order with the separator between neighbours (read back by `Text.SplitOnJoin` and `Text.JoinSplitOn`) |
| Text.SplitJoin | main.py:44 | `split()` recovers non-empty space-free words joined by single spaces |
| Text.SplitOnJoin | main.py:151 | splitting on a separator undoes joining with it, when no piece holds the separator |
| Text.JoinSplitOn | main.py:151 | joining with a separator undoes splitting on it |
| Text.Padded | contact_book.py:147 | a zero-padded field has exactly the width asked for, only digits, and reads back as the number |
| Calendar.BeforeIsEarlier | contact_book.py:129 | comparing dates by year, month, day agrees with comparing their day numbers, both ways, and equal dates have equal numbers |
| Calendar.NextDay | contact_book.py:141-143 | adding one day gives a real date whose day number is one more |
| Calendar.DayNumber | contact_book.py:133 | `toordinal()`: days counted from 1 January of year 1, so the difference of two dates is the `.days` of their subtraction (its order is stated by `Calendar.BeforeIsEarlier`, its step by `Calendar.NextDay`) |
| Calendar.Weekday | contact_book.py:140-142 | `weekday()` lies in 0..6, Monday being 0 (it advances by one a day, `Calendar.WeekdayNext`) |
| Calendar.Format | contact_book.py:147 | `strftime("%d.%m.%Y")`: zero-padded day, month and four-digit year separated by dots (read back by `Fields.FormatParses`) |
| Calendar.WeekdayNext | contact_book.py:140-143 | the weekday advances by one, modulo seven, with each day |
| Calendar.LastDateIsFriday | contact_book.py:141-143 | 31 December 9999 is a Friday, so moving a weekend birthday never runs past the last date |
| Calendar.Congratulation | contact_book.py:137-143 | the greeting day is a working day, no earlier than the birthday and at most two days after it; a weekday birthday is kept; a weekend one moves to Monday |
| Calendar.ReplaceYear | contact_book.py:126 | `replace(year=y)` succeeds exactly when day and month form a real date in year `y`, and otherwise raises `ValueError` |
| Fields.NameValue | contact_book.py:19-22 | `Name` raises its fixed `ValueError` exactly for empty or all-whitespace input, and otherwise stores the stripped text, which is non-empty |
| Fields.NameIdempotent | contact_book.py:22 | building a `Name` from a stored name gives the same name |
| Fields.NameAccepted | contact_book.py:19-22 | a non-empty string with no whitespace at either end is accepted as a name unchanged |
| Fields.NameIsCore | contact_book.py:22 | the stored name is a contiguous piece of the input with only whitespace around it |
| Fields.PhoneValue | contact_book.py:28-31 | `Phone` accepts exactly ten ASCII digits, unchanged, and raises its fixed `ValueError` otherwise |
| Fields.DayField | contact_book.py:40 | a day `%d` accepts lies in 1..31 |
| Fields.MonthField | contact_book.py:40 | a month `%m` accepts lies in 1..12 |
| Fields.YearField | contact_book.py:40 | a year `%Y` accepts lies in 0..9999 |
| Fields.DateFields | contact_book.py:40 | the fields read from `%d.%m.%Y` are within the grammar's ranges |
| Fields.ParseBirthday | contact_book.py:37-43 | `Birthday` succeeds exactly when the text matches `%d.%m.%Y` and names a real date, keeps the raw text and that date, and otherwise raises the one format `ValueError` |
| Fields.DateFieldsOf | contact_book.py:40 | dot-free fields joined by dots are read back field by field |
| Fields.FormatParses | contact_book.py:147 | every date written as `%d.%m.%Y` is read back by `Birthday` as the same date |
| Fields.FieldsAccepted | contact_book.py:40-41 | any dot-free fields the grammar accepts that name a real date make a birthday |
| Fields.ShortFieldsAccepted | contact_book.py:40 | `1.1.1990`, with one-digit day and month, is accepted |
| Fields.OutOfRangeRefused | test_bot.py:73 | `32.13.2000` is refused |
| Fields.LeapDayRefused | contact_book.py:40-43 | 29 February 2001 is refused |
| Fields.LeapDayAccepted | contact_book.py:40-41 | 29 February 2000 is accepted |
| Fields.YearZeroRefused | contact_book.py:40-43 | `01.01.0000` is refused although its year has four digits |
| Contacts.New | contact_book.py:49-52 | `Record(name)` fails with the name error exactly for blank names, and otherwise is a valid record with the stripped name, no phones and no birthday |
| Contacts.AddPhone | contact_book.py:54-57 | `add_phone` succeeds exactly for a ten-digit number. It appends it at the end, without merging duplicates, and keeps name, birthday and every earlier phone. Otherwise it raises the phone error |
| Contacts.RemovePhone | contact_book.py:59-65 | `remove_phone` succeeds exactly when the number is present, then drops its first occurrence; otherwise it raises its fixed error |
| Contacts.EditPhone | contact_book.py:67-73 | `edit_phone` succeeds exactly when `old` is present and `new` is valid, and then overwrites the first `old` at its own index and keeps every other index. A missing `old` raises before `new` is checked; an invalid `new` raises the phone error |
| Contacts.AddBirthday | contact_book.py:82-84 | `add_birthday` succeeds exactly when `Birthday` accepts the text, and then stores that text with the very date the parser produced, keeping name and phones; otherwise it raises the date-format error |
| Contacts.OperationsKeepValid | contact_book.py:54-84 | every operation that succeeds on a valid record leaves it valid |
| Contacts.RemoveUndoesAdd | contact_book.py:54-65 | removing a number just added, that was not there before, gives the record back |
| Contacts.AddPhoneCounts | contact_book.py:57 | adding a number raises its count by exactly one |
| Contacts.EditUndoesEdit | contact_book.py:67-73 | editing `old` to an absent `new` and back gives the record back |
| Contacts.EditPhoneCounts | contact_book.py:69-71 | editing swaps one occurrence of `old` for one of `new` and keeps all other numbers |
| Contacts.Render | contact_book.py:86-89 | `str(record)`: "Contact name: ", the name, ", phones: ", the "; "-joined phones and the birthday text when set (read back by `Contacts.RenderReadsBack`) |
| Contacts.RenderReadsBack | contact_book.py:86-89 | `str(record)` starts with the name, ends with the birthday text when one is set, and the phones are read back from between |
| Contacts.PhonesRoundTrip | contact_book.py:87 | ten-digit numbers joined by "; " are read back in order |
| Contacts.EditedJohnPrints | contact_book.py:176-182 | after John's first number is edited he prints as `Contact name: John, phones: 1112223333; 5555555555` |
| Records.Record.Init | contact_book.py:49-52 | a new record holds the given name, no phones and no birthday, and is valid |
| Records.Record.Create | contact_book.py:49-52 | `Record(raw)` raises exactly when the value view does, with the same error, and otherwise is a fresh valid record whose state is that view |
| Records.Record.AddPhone | contact_book.py:54-57 | the record ends in the state `Contacts.AddPhone` gives, or is unchanged and raises its error; a valid record stays valid |
| Records.Record.FindPhone | contact_book.py:75-80 | `find_phone` finds a number exactly when it is present, and then at its first position |
| Records.Record.RemovePhone | contact_book.py:59-65 | the record ends in the state `Contacts.RemovePhone` gives, or is unchanged and raises its error; a valid record stays valid |
| Records.Record.EditPhone | contact_book.py:67-73 | the loop leaves the record in the state `Contacts.EditPhone` gives, or unchanged with its error; a valid record stays valid |
| Records.Record.AddBirthday | contact_book.py:82-84 | the record ends in the state `Contacts.AddBirthday` gives, or is unchanged and raises its error; a valid record stays valid |
| Directory.AddRecord | contact_book.py:95-97 | after `add_record` the name maps to the new record and every other name to what it held |
| Directory.Find | contact_book.py:99-101 | `find` returns a record exactly when the text is a key, and then the record stored under it |
| Directory.Delete | contact_book.py:103-108 | `delete` raises `KeyError` with its fixed message exactly when the name is absent, and otherwise removes that key only |
| Directory.Values | contact_book.py:120 | `data.values()` yields one record per key, in key order |
| Directory.AddRecordValid | contact_book.py:95-97 | storing a valid record keeps the book well formed |
| Directory.AddRecordFind | contact_book.py:95-101 | after `add_record` the record is found under its name and every other lookup is as before |
| Directory.AddRecordOrder | contact_book.py:97 | an existing name keeps its position and only its record changes; a new name is added at the end |
| Directory.DeleteIndexed | contact_book.py:105-106 | deleting keeps each remaining key listed once and drops exactly that key from the order |
| Directory.DeleteValid | contact_book.py:105-106 | deleting keeps the book well formed |
| Directory.DeleteFind | contact_book.py:105-106 | after `delete` the name is not found and every other name is found as before |
| Directory.DeleteUndoesAdd | contact_book.py:95-108 | deleting a name just added gives the book back, order included |
| Directory.JaneDeleted | contact_book.py:164-195 | storing John, then Jane, then deleting Jane leaves John alone in the book |
| Directory.PaddedNameNotFound | contact_book.py:97-101 | a record made from space-padded text is stored under the stripped name and not found by the padded text |
| Upcoming.NextBirthday | contact_book.py:126-130 | the projected birthday has the birthday's day and month, is not before today, and falls in this year or the next; a failure is a `ValueError` |
| Upcoming.NextBirthdayIsFirst | contact_book.py:126-130 | no anniversary on or after today comes before the projected one |
| Upcoming.NextBirthdayFails | contact_book.py:126-130 | projection fails exactly for 29 February when this year's is missing or past, or in year 9999 once the birthday has passed |
| Upcoming.GreetingFor | contact_book.py:121-148 | a record without a birthday is skipped, and a greeting carries the record's name |
| Upcoming.GreetedWhenDue | contact_book.py:133-135 | a record is greeted exactly when some anniversary of its birthday lies 0 to 7 days after today |
| Upcoming.GreetingDate | contact_book.py:137-147 | the greeting date is the anniversary, or the Monday after it on a weekend, written `%d.%m.%Y`. The anniversary lies 0 to 7 days after today, and the greeting falls on a working day at most two days after it |
| Upcoming.Collect | contact_book.py:145-148 | collecting never yields more greetings than there are records |
| Upcoming.CollectFails | contact_book.py:120-130 | collecting fails exactly when some step fails, and then with the first failure |
| Upcoming.CollectLists | contact_book.py:145-148 | a successful collection holds exactly the greetings the steps produce |
| Upcoming.CollectNext | contact_book.py:145-148 | one more step after a successful prefix: an error ends the whole collection with that error, no greeting keeps the list, a greeting is appended |
| Upcoming.CollectAppend | contact_book.py:120 | collecting a concatenation concatenates the collections, in order |
| Upcoming.Outcomes | contact_book.py:120-148 | one projection per record, in dict order, each the record's `GreetingFor` |
| Upcoming.Upcoming | contact_book.py:110-150 | `get_upcoming_birthdays` as the collection of the per-record projections (its failures and contents are stated by `Upcoming.UpcomingFails` and `Upcoming.UpcomingLists`) |
| Upcoming.UpcomingFails | contact_book.py:120-130 | `get_upcoming_birthdays` raises exactly when some record's projection raises, and then with the first such record's error |
| Upcoming.UpcomingLists | contact_book.py:120-148 | when it returns, it lists exactly the greetings of the records that are due |
| Upcoming.UpcomingAppend | contact_book.py:120 | greetings come in the order of the records |
| Upcoming.WeekOfOctober28 | contact_book.py:133-147 | from Monday 28 October 2024: 1 November is greeted that Friday, 2 November (a Saturday) on Monday 4 November, and 5 November is not listed |
| Upcoming.FormatExample | contact_book.py:147 | 4 November 2024 is written `04.11.2024` |
| AddressBooks.NamesAreKeys | contact_book.py:97 | in a well-formed book each record is stored under its own name |
| AddressBooks.GreetingOf | contact_book.py:121-148 | one pass of the loop yields exactly the greeting, skip or error that `Upcoming.GreetingFor` gives for the record |
| AddressBooks.AddressBook.constructor | contact_book.py:92 | a new book is empty and well formed |
| AddressBooks.AddressBook.AddRecord | contact_book.py:95-97 | the book becomes `Directory.AddRecord` of its old state, and the dict maps the name to this very record object |
| AddressBooks.AddressBook.Find | contact_book.py:99-101 | `find` returns the stored record object exactly when the text is a key, agreeing with `Directory.Find` |
| AddressBooks.AddressBook.Delete | contact_book.py:103-108 | the book becomes what `Directory.Delete` gives, or is unchanged when it raises `KeyError` |
| AddressBooks.AddressBook.GetUpcomingBirthdays | contact_book.py:110-150 | the loop over the records in dict order returns exactly `Upcoming.Upcoming` of the book's records, error included |
| Commands.ParseInput | main.py:44-47 | `parse_input`: every argument is a non-empty word without whitespace, and there is a command whenever there are arguments |
| Commands.InputError | main.py:20-30 | `input_error`: a result passes through and each error kind is printed behind its own prefix (stated by `Commands.InputErrorReadsBack`) |
| Commands.AddContact | main.py:62-77 | `add_contact`: argument check, lookup of the raw name, then the known-name or new-name path (its effects are stated by `Commands.AddContactEffect` and the `AddContact…` lemmas) |
| Commands.AddContactEffect | main.py:62-77 | `add_contact` changes the book only with two arguments and a known or non-blank name, and answers "Contact updated." exactly for a known name and "Contact added." for a new one |
| Commands.AddToKnown | main.py:66-77 | for a stored record: an error leaves the book unchanged, success answers "Contact updated." |
| Commands.AddToNew | main.py:69-77 | for a new name: a blank name raises the name error and changes nothing, success answers "Contact added." |
| Commands.ChangeContact | main.py:92-102 | `change_contact`: an error leaves the book unchanged, and only a known name with three arguments changes it |
| Commands.ShowPhone | main.py:117-130 | `show_phone` raises (the argument error) exactly when no argument is given |
| Commands.ShowAll | main.py:144-151 | `show_all`: the empty-book text, or the records' renderings joined by line breaks in dict order (stated by `Commands.ShowAllEmpty` and `Commands.ShowAllLines`) |
| Commands.AddBirthday | main.py:166-176 | `add_birthday`: an error leaves the book unchanged, and only a known name with two arguments changes it |
| Commands.ShowBirthday | main.py:191-203 | `show_birthday` raises (the argument error) exactly when no argument is given |
| Commands.Birthdays | main.py:218-227 | `birthdays`: the no-birthdays text for an empty list, otherwise one "name: date" line per greeting (stated by `Commands.GreetingLines` and `Commands.BirthdaysLines`) |
| Commands.ParseInputWords | main.py:44-47 | for every line, `parse_input` gives `("", [])` when `split()` finds no word, and otherwise the first word lower-cased and the remaining words, whatever whitespace surrounds them |
| Commands.ParseSpaced | main.py:44-47 | three words separated by any non-empty whitespace runs (double spaces, tabs) and with any whitespace around them read as the lower-cased command and two arguments |
| Commands.ParseBlank | main.py:44-47 | `parse_input` gives `("", [])` exactly for an empty or all-whitespace line |
| Commands.JoinedWords | main.py:44-47 | words without spaces joined by single spaces are split back into the same words after stripping |
| Commands.ParseJoined | main.py:44-47 | a command and arguments written with single spaces are read back: the command lower-cased, the arguments unchanged |
| Commands.InputErrorReadsBack | main.py:20-28 | `ValueError` and `KeyError` print their own prefix with the message readable after it, every `IndexError` prints the one argument text, and a result passes through |
| Commands.AddRecordTwice | contact_book.py:97 | storing two records under one name keeps only the second |
| Commands.AddContactShort | main.py:62-63 | fewer than two arguments print the argument text and leave the book unchanged |
| Commands.AddContactNew | main.py:66-75 | a new name with a valid phone is stored under its stripped name with that phone, and "Contact added." is returned |
| Commands.AddContactKnown | main.py:66-77 | a known name with a valid phone gets it appended to its record in place, the order is unchanged, and "Contact updated." is returned |
| Commands.AddContactBadPhone | main.py:69-75 | an invalid phone raises; for a new name the record stays in the book without phones, for a known name the book is unchanged |
| Commands.AddContactBlankName | main.py:69-70 | a blank new name raises the name error and leaves the book unchanged |
| Commands.AddContactValid | main.py:62-77 | `add_contact` keeps a well-formed book well formed, whatever it returns |
| Commands.ChangeContactValid | main.py:92-102 | `change_contact` keeps the book well formed and the order unchanged |
| Commands.ShowPhoneReadsBack | main.py:126-130 | `show_phone` prints "name: " and then the record's phones, read back in stored order |
| Commands.ShowAllEmpty | main.py:144-145 | `show_all` prints the empty-book text exactly when the book is empty |
| Commands.ShowAllLines | main.py:147-151 | `show_all` prints one line per record, in dict order, each being `str(record)` |
| Commands.AddBirthdayValid | main.py:166-176 | `add_birthday` keeps the book well formed and the order unchanged |
| Commands.BirthdayShown | main.py:191-203 | setting an accepted birthday and then asking for it shows the text exactly as entered |
| Commands.GreetingLines | main.py:224-225 | one "name: date" line per greeting, in order |
| Commands.UnknownName | main.py:96-99 | for a name not in the book, `phone` and `show-birthday` (one argument or more), `add-birthday` (two or more) and `change` (three or more) print the not-found text and change nothing |
| Commands.UnknownShortCommands | main.py:117-124 | `phone Unknown`, `show-birthday Unknown` and `add-birthday Unknown 01.01.2000` print the not-found text for a name the book lacks |
| Commands.FormatOneLine | contact_book.py:147 | a formatted date holds no line break |
| Commands.BirthdaysLines | main.py:218-227 | `birthdays` prints the no-birthdays text when none is due, and otherwise one "name: date" line per greeting in book order |
| Commands.ShowTwo | main.py:126-130 | a record holding two numbers shows them in stored order |
| Commands.TwoPhones | main.py:62-77 | a new name with one phone, then a second phone: "added", "updated", and `phone` lists both in order |
| Commands.ChangeFirstPhone | test_bot.py:47-48 | changing the first of two numbers replaces it where it stands |
| Commands.AddNewName | main.py:66-75 | a new stripped name with a valid phone is appended to the book's order with just that phone |
| Commands.ThreeAdds | test_bot.py:33-35 | two names, then a second phone for the first: "added", "added", "updated", order `[first, second]` |
| Commands.TwoContacts | test_bot.py:33-48 | the same followed by `change`: each step reports as expected and `phone` shows the edited list |
| Commands.JohnAndJane | test_bot.py:33-48 | the bot's own sequence for John and Jane gives "added", "added", "updated", `John: 1234567890; 5555555555`, then `John: 1112223333; 5555555555` |
| Commands.ShortPhoneLeavesRecord | test_bot.py:70 | `add Test 123` prints the phone error, yet `Test` is now in the book without phones |
| Commands.BlankNamesRefused | test_bot.py:82-85 | an empty name and a name of spaces print the name error and change nothing |
| Bot.AddPhoneStored | main.py:74-75 | adding a phone to a record the book holds changes the book exactly as `Directory.AddRecord` of the new record state, or not at all on error |
| Bot.EditPhoneStored | main.py:101 | the same for `edit_phone` |
| Bot.AddBirthdayStored | main.py:175 | the same for `add_birthday` |
| Bot.AddToKnown | main.py:74-77 | for a found record, the book and result are those of `Commands.AddToKnown` |
| Bot.AddToNew | main.py:69-77 | for a new name, the record is created and stored first, then the phone is added; book and result are those of `Commands.AddToNew` |
| Bot.AddContact | main.py:62-77 | the shared book ends as `Commands.AddContact` says, stays well formed, and the printed text is `input_error` of its result |
| Bot.ChangeContact | main.py:92-102 | the same for `change_contact` |
| Bot.AddBirthday | main.py:166-176 | the same for `add_birthday` |
| Bot.ShowAll | main.py:144-151 | the loop prints exactly `Commands.ShowAll` of the book |
| Bot.Birthdays | main.py:218-227 | the printed text is `input_error` of `Commands.Birthdays` for the book and the reference date |

## Left out

- Commands.InputError: a `KeyError` is always printed with its message in single quotes; Python's `repr` switches to double quotes and escapes backslashes when the message holds a single quote, which the one `KeyError` message of the address book (contact_book.py:108) never does.
- The interactive loop `main()` of main.py (main.py:285-329) is not modelled: reading lines, printing and command dispatch are I/O. Unknown commands print "Invalid command.".
- `show_help` (main.py:230-282) is left out: a constant text with no logic.
- The catch-all `except Exception` branch of `input_error` (main.py:29-30) is left out: no modelled operation raises anything but `ValueError`, `IndexError` or `KeyError`.
- The clock is not modelled: `datetime.today()` (contact_book.py:118) becomes the `today` parameter of `get_upcoming_birthdays` and of `birthdays`.
- The demonstration `main()` of contact_book.py (contact_book.py:153-199) prints; its expected outputs are stated as `Contacts.EditedJohnPrints` and `Directory.JaneDeleted`.
- `args` of `birthdays` (main.py:207) is unused by the source and has no counterpart.
- Text is ASCII only. Unicode whitespace, Unicode digits for `isdigit` and `\d`, and non-ASCII case mapping in `lower` are not modelled.
- `Calendar.Format` always writes the year with four digits. C libraries differ for years below 1000, which a greeting date (this year or the next) never has.
- `Field.__str__` (contact_book.py:12-13) is not modelled separately; `Record.__str__` is `Contacts.Render`.
- `Commands.BirthdaysLines` proves the no-birthdays text for an empty greeting list in one direction only. It does not prove that a non-empty list never prints that same text.
- `AddressBooks.AddressBook.AddRecord` and `AddressBooks.AddressBook.Delete` do not restate the book's well-formedness in their own contracts. That is proved on the value view instead, by `Directory.AddRecordValid` and `Directory.DeleteValid`, and the handlers apply it.
