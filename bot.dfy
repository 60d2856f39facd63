/**
 * The handlers of main.py that change the shared `AddressBook` in place, and
 * the two that loop over it to build their output. Each prints exactly what
 * the matching function of `Commands` says, and leaves the book in the state
 * that function gives.
 */
module Bot {
  import opened Wrappers
  import opened Text
  import opened Calendar
  import opened Records
  import opened AddressBooks
  import Directory
  import Contacts
  import Upcoming
  import Commands

  /** `record.add_phone(phone)` on a record the book holds: the book sees the change. */
  method AddPhoneStored(book: AddressBook, record: Record, phone: string) returns (err: Option<Error>)
    requires book.Valid() && record.name in book.data && book.data[record.name] == record
    modifies record
    ensures match Contacts.AddPhone(old(record.View()), phone)
            case Ok(d) => err == None && book.Model() == Directory.AddRecord(old(book.Model()), d)
            case Err(e) => err == Some(e) && book.Model() == old(book.Model())
  {
    ghost var before := book.Model();
    ghost var c := record.View();
    NamesAreKeys(book);
    err := record.AddPhone(phone);
    assert forall k :: k in book.data && k != record.name ==> book.data[k].View() == old(book.data[k].View());
    Directory.AddRecordPointwise(before, book.Model(), record.View());
    if err.Some? {
      Directory.AddRecordSame(before, c);
    }
  }

  /** `record.edit_phone(old, new)` on a record the book holds. */
  method EditPhoneStored(book: AddressBook, record: Record, from: string, to: string) returns (err: Option<Error>)
    requires book.Valid() && record.name in book.data && book.data[record.name] == record
    modifies record
    ensures match Contacts.EditPhone(old(record.View()), from, to)
            case Ok(d) => err == None && book.Model() == Directory.AddRecord(old(book.Model()), d)
            case Err(e) => err == Some(e) && book.Model() == old(book.Model())
  {
    ghost var before := book.Model();
    ghost var c := record.View();
    NamesAreKeys(book);
    err := record.EditPhone(from, to);
    assert forall k :: k in book.data && k != record.name ==> book.data[k].View() == old(book.data[k].View());
    Directory.AddRecordPointwise(before, book.Model(), record.View());
    if err.Some? {
      Directory.AddRecordSame(before, c);
    }
  }

  /** `record.add_birthday(raw)` on a record the book holds. */
  method AddBirthdayStored(book: AddressBook, record: Record, raw: string) returns (err: Option<Error>)
    requires book.Valid() && record.name in book.data && book.data[record.name] == record
    modifies record
    ensures match Contacts.AddBirthday(old(record.View()), raw)
            case Ok(d) => err == None && book.Model() == Directory.AddRecord(old(book.Model()), d)
            case Err(e) => err == Some(e) && book.Model() == old(book.Model())
  {
    ghost var before := book.Model();
    ghost var c := record.View();
    NamesAreKeys(book);
    err := record.AddBirthday(raw);
    assert forall k :: k in book.data && k != record.name ==> book.data[k].View() == old(book.data[k].View());
    Directory.AddRecordPointwise(before, book.Model(), record.View());
    if err.Some? {
      Directory.AddRecordSame(before, c);
    }
  }

  /** `add_contact` once the name is found: the phone is added to the stored record. */
  method AddToKnown(book: AddressBook, record: Record, phone: string) returns (r: Result<string>)
    requires book.Valid() && record.name in book.data && book.data[record.name] == record
    modifies record
    ensures (book.Model(), r) == Commands.AddToKnown(old(book.Model()), old(record.View()), phone)
  {
    if phone == [] {
      return Ok(Commands.Updated);
    }
    var err := AddPhoneStored(book, record, phone);
    if err.Some? {
      return Err(err.value);
    }
    return Ok(Commands.Updated);
  }

  /** `add_contact` for a new name: a new record is stored, then the phone is added to it. */
  method AddToNew(book: AddressBook, name: string, phone: string) returns (r: Result<string>)
    requires book.Valid()
    modifies book
    ensures (book.Model(), r) == Commands.AddToNew(old(book.Model()), name, phone)
  {
    ghost var before := book.Model();
    var created := Record.Create(name);
    if created.Err? {
      return Err(created.error);
    }
    var record := created.value;
    book.AddRecord(record);
    Directory.AddRecordValid(before, record.View());
    if phone == [] {
      return Ok(Commands.Added);
    }
    var err := AddPhoneStored(book, record, phone);
    if err.Some? {
      return Err(err.value);
    }
    return Ok(Commands.Added);
  }

  /**
   * `add_contact`: finds the record or creates and stores a new one, then adds
   * the phone to it in place.
   */
  method AddContact(book: AddressBook, args: seq<string>) returns (out: string)
    requires book.Valid()
    modifies book, book.data.Values
    ensures book.Valid()
    ensures book.Model() == Commands.AddContact(old(book.Model()), args).0
    ensures out == Commands.InputError(Commands.AddContact(old(book.Model()), args).1)
  {
    Commands.AddContactValid(book.Model(), args);
    if |args| < 2 {
      return Commands.InputError(Err(IndexError(Commands.AddArgsMessage)));
    }
    var name, phone := args[0], args[1];
    var found := book.Find(name);
    var r: Result<string>;
    if found.None? {
      r := AddToNew(book, name, phone);
    } else {
      r := AddToKnown(book, found.value, phone);
    }
    return Commands.InputError(r);
  }

  /** `change_contact`: edits a phone of a known record in place. */
  method ChangeContact(book: AddressBook, args: seq<string>) returns (out: string)
    requires book.Valid()
    modifies book.data.Values
    ensures book.Valid()
    ensures book.Model() == Commands.ChangeContact(old(book.Model()), args).0
    ensures out == Commands.InputError(Commands.ChangeContact(old(book.Model()), args).1)
  {
    ghost var before := book.Model();
    Commands.ChangeContactValid(before, args);
    if |args| < 3 {
      return Commands.InputError(Err(IndexError(Commands.ChangeArgsMessage)));
    }
    var name, from, to := args[0], args[1], args[2];
    var found := book.Find(name);
    if found.None? {
      return Commands.NotFound(name);
    }
    NamesAreKeys(book);
    var err := EditPhoneStored(book, found.value, from, to);
    if err.Some? {
      return Commands.InputError(Err(err.value));
    }
    return Commands.Updated;
  }

  /** `add_birthday`: sets the birthday of a known record in place. */
  method AddBirthday(book: AddressBook, args: seq<string>) returns (out: string)
    requires book.Valid()
    modifies book.data.Values
    ensures book.Valid()
    ensures book.Model() == Commands.AddBirthday(old(book.Model()), args).0
    ensures out == Commands.InputError(Commands.AddBirthday(old(book.Model()), args).1)
  {
    ghost var before := book.Model();
    Commands.AddBirthdayValid(before, args);
    if |args| < 2 {
      return Commands.InputError(Err(IndexError(Commands.BirthdayArgsMessage)));
    }
    var name, raw := args[0], args[1];
    var found := book.Find(name);
    if found.None? {
      return Commands.NotFound(name);
    }
    NamesAreKeys(book);
    var err := AddBirthdayStored(book, found.value, raw);
    if err.Some? {
      return Commands.InputError(Err(err.value));
    }
    return Commands.BirthdayAdded;
  }

  /** `show_all`: renders each record in dict order and joins the lines. */
  method ShowAll(book: AddressBook) returns (out: string)
    requires book.Valid()
    ensures out == Commands.ShowAll(book.Model())
  {
    if book.data == map[] {
      return Commands.EmptyBook;
    }
    ghost var vs := Directory.Values(book.Model());
    var result: seq<string> := [];
    for i := 0 to |book.keys|
      invariant |result| == i
      invariant forall j :: 0 <= j < i ==> result[j] == Contacts.Render(vs[j])
    {
      var record := book.data[book.keys[i]];
      result := result + [Contacts.Render(record.View())];
    }
    assert result == seq(|vs|, i requires 0 <= i < |vs| => Contacts.Render(vs[i]));
    return Join(result, "\n");
  }

  /**
   * `birthdays`: the greetings due within the week after `today`, one
   * "name: date" line each.
   */
  method Birthdays(book: AddressBook, today: Date) returns (out: string)
    requires book.Valid() && ValidDate(today)
    ensures Upcoming.Dated(Directory.Values(book.Model()))
    ensures out == Commands.InputError(Commands.Birthdays(book.Model(), today))
  {
    assert Upcoming.Dated(Directory.Values(book.Model()));
    var upcoming := book.GetUpcomingBirthdays(today);
    if upcoming.Err? {
      return Commands.InputError(Err(upcoming.error));
    }
    var greetings := upcoming.value;
    if greetings == [] {
      return Commands.NoBirthdays;
    }
    var result: seq<string> := [];
    for i := 0 to |greetings|
      invariant |result| == i
      invariant forall j :: 0 <= j < i ==> result[j] == greetings[j].name + ": " + greetings[j].congratulationDate
    {
      result := result + [greetings[i].name + ": " + greetings[i].congratulationDate];
    }
    assert result == Commands.GreetingLines(greetings);
    return Join(result, "\n");
  }
}
