/**
 * The command handlers of main.py on book values: what each one returns or
 * raises, and the book it leaves behind. `InputError` is the `input_error`
 * decorator, turning a raised error into the text the bot prints.
 */
module Commands {
  import opened Wrappers
  import opened Text
  import opened Calendar
  import opened Fields
  import Contacts
  import Directory
  import Upcoming
  import Lists

  const AddArgsMessage := "Потрібно вказати ім'я та телефон."
  const ChangeArgsMessage := "Потрібно вказати ім'я, старий телефон та новий телефон."
  const NameArgMessage := "Потрібно вказати ім'я контакту."
  const BirthdayArgsMessage := "Потрібно вказати ім'я та дату народження (DD.MM.YYYY)."
  const Added := "Contact added."
  const Updated := "Contact updated."
  const BirthdayAdded := "Birthday added."
  const EmptyBook := "Адресна книга порожня."
  const NoBirthdays := "Немає днів народження на наступному тижні."
  const ValuePrefix := "Помилка значення: "
  const MissingArguments := "Недостатньо аргументів для команди."
  const KeyPrefix := "Помилка ключа: "

  function NotFound(name: string): string {
    "Контакт " + name + " не знайдено."
  }

  function NoPhones(name: string): string {
    "У контакту " + name + " немає телефонів."
  }

  function NoBirthday(name: string): string {
    "У контакту " + name + " не вказано дату народження."
  }

  /**
   * `parse_input`: the words of the line; the first, lower-cased, is the
   * command and the rest are its arguments.
   */
  function ParseInput(line: string): (r: (string, seq<string>))
    ensures forall k :: 0 <= k < |r.1| ==> r.1[k] != [] && NoSpace(r.1[k])
    ensures |r.1| > 0 ==> r.0 != []
  {
    var parts := Split(Strip(line));
    SplitTokens(Strip(line));
    if parts == [] then ("", [])
    else
      assert forall k :: 0 <= k < |parts| - 1 ==> parts[1..][k] == parts[k + 1];
      (Lower(parts[0]), parts[1..])
  }

  /**
   * `parse_input` on any line: the command is the first word of `split()`,
   * lower-cased, and the arguments are the remaining words, whatever the
   * whitespace between or around them.
   */
  lemma ParseInputWords(line: string)
    ensures ParseInput(line) == if Split(line) == [] then ("", []) else (Lower(Split(line)[0]), Split(line)[1..])
  {
    SplitStrip(line);
  }

  /**
   * `add  John\t1234567890` and the like: three words separated by any runs of
   * whitespace, with any whitespace around them, are read as the lower-cased
   * command and two arguments.
   */
  lemma ParseSpaced(command: string, name: string, phone: string, a: string, w1: string, w2: string, b: string)
    requires command != [] && NoSpace(command) && name != [] && NoSpace(name) && phone != [] && NoSpace(phone)
    requires AllSpace(a) && AllSpace(b) && w1 != [] && AllSpace(w1) && w2 != [] && AllSpace(w2)
    ensures ParseInput(a + command + w1 + name + w2 + phone + b) == (Lower(command), [name, phone])
  {
    var args := name + w2 + phone;
    var middle := command + w1 + args;
    var line := a + command + w1 + name + w2 + phone + b;
    assert line == a + middle + b;
    SplitAround(a, middle, b);
    SplitSpaces(command, w1, args);
    SplitSpaces(name, w2, phone);
    SplitWord(command);
    SplitWord(name);
    SplitWord(phone);
    assert Split(line) == [command, name, phone];
    ParseInputWords(line);
  }

  /** Reading words from the current word on finds none exactly when there are none. */
  lemma {:induction false} SplitFromEmpty(s: string, word: string)
    ensures SplitFrom(s, word) == [] <==> word == [] && AllSpace(s)
    decreases |s|
  {
    if s != [] {
      SplitFromEmpty(s[1..], if IsSpace(s[0]) then [] else word + [s[0]]);
    }
  }

  /** A blank line has no command and no arguments; any other line has a command. */
  lemma ParseBlank(line: string)
    ensures ParseInput(line) == ("", []) <==> AllSpace(line)
  {
    var t := Strip(line);
    SplitFromEmpty(t, []);
    if !AllSpace(line) {
      assert t != [] && !IsSpace(t[0]);
      var parts := Split(t);
      assert parts != [];
      SplitFirstWord(t);
    }
  }

  /** The first word of a text that starts with a non-space is non-empty. */
  lemma SplitFirstWord(t: string)
    requires t != [] && !IsSpace(t[0])
    ensures Split(t) != [] && Split(t)[0] != []
  {
    var none: string := [];
    assert none + [t[0]] == [t[0]];
    assert SplitFrom(t, none) == SplitFrom(t[1..], none + [t[0]]);
    SplitFromNonEmpty(t[1..], [t[0]]);
  }

  lemma {:induction false} SplitFromNonEmpty(s: string, word: string)
    requires word != []
    ensures SplitFrom(s, word) != [] && SplitFrom(s, word)[0] != []
    decreases |s|
  {
    if s != [] && !IsSpace(s[0]) {
      SplitFromNonEmpty(s[1..], word + [s[0]]);
    }
  }

  /**
   * A command and arguments written with single spaces are read back: the
   * command lower-cased, the arguments as they were.
   */
  lemma ParseJoined(command: string, args: seq<string>)
    requires command != [] && NoSpace(command)
    requires forall k :: 0 <= k < |args| ==> args[k] != [] && NoSpace(args[k])
    ensures ParseInput(Join([command] + args, " ")) == (Lower(command), args)
  {
    var ws := [command] + args;
    forall k | 0 <= k < |ws|
      ensures ws[k] != [] && NoSpace(ws[k])
    {
      if k > 0 {
        assert ws[k] == args[k - 1];
      }
    }
    JoinedWords(ws);
    assert ws[0] == command && ws[1..] == args;
  }

  /** Words without spaces, joined by spaces, are read back by `strip` and `split`. */
  lemma JoinedWords(ws: seq<string>)
    requires |ws| > 0
    requires forall k :: 0 <= k < |ws| ==> ws[k] != [] && NoSpace(ws[k])
    ensures Split(Strip(Join(ws, " "))) == ws
  {
    JoinEnds(ws);
    StripUnchanged(Join(ws, " "));
    SplitJoin(ws);
  }

  /** Words without spaces, joined by spaces, neither start nor end with a space. */
  lemma {:induction false} JoinEnds(ws: seq<string>)
    requires |ws| > 0
    requires forall k :: 0 <= k < |ws| ==> ws[k] != [] && NoSpace(ws[k])
    ensures Join(ws, " ") != [] && !IsSpace(Join(ws, " ")[0]) && !IsSpace(Join(ws, " ")[|Join(ws, " ")| - 1])
  {
    if |ws| > 1 {
      JoinEnds(ws[1..]);
      var rest := Join(ws[1..], " ");
      assert Join(ws, " ") == ws[0] + " " + rest;
    }
  }

  /** `input_error`: what the bot prints for a handler's result or error. */
  function InputError(r: Result<string>): (out: string)
  {
    match r
    case Ok(s) => s
    case Err(ValueError(m)) => ValuePrefix + m
    case Err(IndexError(_)) => MissingArguments
    case Err(KeyError(m)) => KeyPrefix + "'" + m + "'"
  }

  /**
   * Each kind of error gets its own prefix and the message can be read back
   * after it; an argument error prints one fixed text whatever its message.
   */
  lemma InputErrorReadsBack(r: Result<string>)
    ensures r.Err? && r.error.ValueError? ==>
              var out := InputError(r);
              |out| >= |ValuePrefix| && out[..|ValuePrefix|] == ValuePrefix && out[|ValuePrefix|..] == r.error.message
    ensures r.Err? && r.error.KeyError? ==>
              var out := InputError(r);
              |out| == |KeyPrefix| + |r.error.message| + 2 && out[..|KeyPrefix|] == KeyPrefix
                && out[|KeyPrefix| + 1..|out| - 1] == r.error.message
    ensures r.Err? && r.error.IndexError? ==> InputError(r) == MissingArguments
    ensures r.Ok? ==> InputError(r) == r.value
  {
    if r.Err? && r.error.KeyError? {
      var out := InputError(r);
      assert out == KeyPrefix + "'" + r.error.message + "'";
    }
  }

  /**
   * `add_contact`: finds the name or creates and stores a new record, then adds
   * the phone. A new record is stored before the phone is checked.
   */
  function AddContact(b: Directory.Book, args: seq<string>): (Directory.Book, Result<string>)
  {
    if |args| < 2 then (b, Err(IndexError(AddArgsMessage)))
    else
      match Directory.Find(b, args[0])
      case Some(c) => AddToKnown(b, c, args[1])
      case None => AddToNew(b, args[0], args[1])
  }

  /**
   * `add_contact` changes the book only with two arguments and a known or
   * non-blank name, and answers "Contact updated." exactly for a known name.
   */
  lemma AddContactEffect(b: Directory.Book, args: seq<string>)
    ensures AddContact(b, args).0 != b ==> |args| >= 2 && (args[0] in b.entries || !AllSpace(args[0]))
    ensures AddContact(b, args).1.Ok? ==>
              |args| >= 2 && AddContact(b, args).1.value == if args[0] in b.entries then Updated else Added
  {
  }

  /** `add_contact` for a stored record: an empty phone adds nothing. */
  function AddToKnown(b: Directory.Book, c: Contacts.Contact, phone: string): (r: (Directory.Book, Result<string>))
    ensures r.1.Err? ==> r.0 == b
    ensures r.1.Ok? ==> r.1.value == Updated
  {
    if phone == [] then (b, Ok(Updated))
    else
      match Contacts.AddPhone(c, phone)
      case Err(e) => (b, Err(e))
      case Ok(d) => (Directory.AddRecord(b, d), Ok(Updated))
  }

  /** `add_contact` for a new name: the record is stored first, then the phone is added. */
  function AddToNew(b: Directory.Book, name: string, phone: string): (r: (Directory.Book, Result<string>))
    ensures AllSpace(name) ==> r == (b, Err(ValueError(NameMessage)))
    ensures r.1.Ok? ==> r.1.value == Added
  {
    match Contacts.New(name)
    case Err(e) => (b, Err(e))
    case Ok(c) =>
      var stored := Directory.AddRecord(b, c);
      if phone == [] then (stored, Ok(Added))
      else
        match Contacts.AddPhone(c, phone)
        case Err(e) => (stored, Err(e))
        case Ok(d) => (Directory.AddRecord(stored, d), Ok(Added))
  }

  /** Storing two records under one name keeps only the second. */
  lemma AddRecordTwice(b: Directory.Book, c: Contacts.Contact, d: Contacts.Contact)
    requires c.name == d.name
    ensures Directory.AddRecord(Directory.AddRecord(b, c), d) == Directory.AddRecord(b, d)
  {
    assert b.entries[c.name := c][d.name := d] == b.entries[d.name := d];
  }

  /** Too few arguments: the argument error, and the book is untouched. */
  lemma AddContactShort(b: Directory.Book, args: seq<string>)
    requires |args| < 2
    ensures AddContact(b, args).0 == b && InputError(AddContact(b, args).1) == MissingArguments
  {
  }

  /** A new name with a valid phone is stored, under its stripped name, with that phone. */
  lemma AddContactNew(b: Directory.Book, name: string, phone: string)
    requires Directory.Find(b, name) == None && !AllSpace(name) && IsPhone(phone)
    ensures AddContact(b, [name, phone]) == (Directory.AddRecord(b, Contacts.Contact(Strip(name), [phone], None)), Ok(Added))
  {
    var c := Contacts.New(name).value;
    var d := Contacts.AddPhone(c, phone).value;
    assert d == Contacts.Contact(Strip(name), [phone], None);
    AddRecordTwice(b, c, d);
  }

  /** A known name with a valid phone gets the phone appended, in place. */
  lemma AddContactKnown(b: Directory.Book, name: string, phone: string)
    requires Directory.Valid(b) && name in b.entries && IsPhone(phone)
    ensures AddContact(b, [name, phone]).1 == Ok(Updated)
    ensures AddContact(b, [name, phone]).0.keys == b.keys
    ensures AddContact(b, [name, phone]).0.entries == b.entries[name := b.entries[name].(phones := b.entries[name].phones + [phone])]
  {
  }

  /**
   * An invalid phone for a new name raises, yet the new record stays in the
   * book without a phone; for a known name the book is untouched.
   */
  lemma AddContactBadPhone(b: Directory.Book, name: string, phone: string)
    requires phone != [] && !IsPhone(phone)
    ensures AddContact(b, [name, phone]).1.Err?
    ensures Directory.Find(b, name).Some? ==> AddContact(b, [name, phone]) == (b, Err(ValueError(PhoneMessage)))
    ensures Directory.Find(b, name).None? && !AllSpace(name) ==>
              AddContact(b, [name, phone]) == (Directory.AddRecord(b, Contacts.Contact(Strip(name), [], None)), Err(ValueError(PhoneMessage)))
  {
  }

  /** A blank name raises the name error and leaves the book as it was. */
  lemma AddContactBlankName(b: Directory.Book, name: string, phone: string)
    requires Directory.Find(b, name) == None && AllSpace(name)
    ensures AddContact(b, [name, phone]) == (b, Err(ValueError(NameMessage)))
  {
  }

  /** `add_contact` leaves a well-formed book well formed, whatever happens. */
  lemma AddContactValid(b: Directory.Book, args: seq<string>)
    requires Directory.Valid(b)
    ensures Directory.Valid(AddContact(b, args).0)
  {
    if |args| >= 2 {
      if args[0] in b.entries {
        AddToKnownValid(b, b.entries[args[0]], args[1]);
      } else {
        AddToNewValid(b, args[0], args[1]);
      }
    }
  }

  lemma AddToKnownValid(b: Directory.Book, c: Contacts.Contact, phone: string)
    requires Directory.Valid(b) && c.name in b.entries && b.entries[c.name] == c
    ensures Directory.Valid(AddToKnown(b, c, phone).0)
  {
    Contacts.OperationsKeepValid(c, phone, phone);
    if phone != [] && Contacts.AddPhone(c, phone).Ok? {
      Directory.AddRecordValid(b, Contacts.AddPhone(c, phone).value);
    }
  }

  lemma AddToNewValid(b: Directory.Book, name: string, phone: string)
    requires Directory.Valid(b)
    ensures Directory.Valid(AddToNew(b, name, phone).0)
  {
    if Contacts.New(name).Ok? {
      var c := Contacts.New(name).value;
      Directory.AddRecordValid(b, c);
      Contacts.OperationsKeepValid(c, phone, phone);
      if phone != [] && Contacts.AddPhone(c, phone).Ok? {
        Directory.AddRecordValid(Directory.AddRecord(b, c), Contacts.AddPhone(c, phone).value);
      }
    }
  }

  /** `change_contact`: edits a phone of a known record. */
  function ChangeContact(b: Directory.Book, args: seq<string>): (r: (Directory.Book, Result<string>))
    ensures r.1.Err? ==> r.0 == b
    ensures r.0 != b ==> |args| >= 3 && args[0] in b.entries
  {
    if |args| < 3 then (b, Err(IndexError(ChangeArgsMessage)))
    else
      var name, from, to := args[0], args[1], args[2];
      match Directory.Find(b, name)
      case None => (b, Ok(NotFound(name)))
      case Some(c) =>
        match Contacts.EditPhone(c, from, to)
        case Err(e) => (b, Err(e))
        case Ok(d) => (Directory.AddRecord(b, d), Ok(Updated))
  }

  /** `change_contact` leaves a well-formed book well formed, with the same order. */
  lemma ChangeContactValid(b: Directory.Book, args: seq<string>)
    requires Directory.Valid(b)
    ensures Directory.Valid(ChangeContact(b, args).0)
    ensures ChangeContact(b, args).0.keys == b.keys
  {
    if |args| >= 3 && args[0] in b.entries {
      var c := b.entries[args[0]];
      Contacts.OperationsKeepValid(c, args[1], args[2]);
      if Contacts.EditPhone(c, args[1], args[2]).Ok? {
        Directory.AddRecordValid(b, Contacts.EditPhone(c, args[1], args[2]).value);
      }
    }
  }

  /** `show_phone`: the record's phones joined by "; ", in stored order. */
  function ShowPhone(b: Directory.Book, args: seq<string>): (r: Result<string>)
    ensures r.Err? <==> args == []
  {
    if |args| < 1 then Err(IndexError(NameArgMessage))
    else
      var name := args[0];
      match Directory.Find(b, name)
      case None => Ok(NotFound(name))
      case Some(c) => if c.phones == [] then Ok(NoPhones(name)) else Ok(name + ": " + Join(c.phones, "; "))
  }

  /** The phones `show_phone` prints are read back, in stored order, after "name: ". */
  lemma ShowPhoneReadsBack(b: Directory.Book, name: string)
    requires Directory.Valid(b) && name in b.entries && b.entries[name].phones != []
    ensures var out := ShowPhone(b, [name]).value;
      |out| >= |name| + 2 && out[..|name| + 2] == name + ": "
      && Contacts.PhonesOf(out[|name| + 2..]) == b.entries[name].phones
  {
    var ps := b.entries[name].phones;
    Contacts.PhonesRoundTrip(ps);
    var out := ShowPhone(b, [name]).value;
    assert out == (name + ": ") + Join(ps, "; ");
    assert out[|name| + 2..] == Join(ps, "; ");
  }

  /** `show_all`: every record's rendering, one per line, in dict order. */
  function ShowAll(b: Directory.Book): (out: string)
    requires forall i :: 0 <= i < |b.keys| ==> b.keys[i] in b.entries
  {
    if b.entries == map[] then EmptyBook
    else
      var vs := Directory.Values(b);
      Join(seq(|vs|, i requires 0 <= i < |vs| => Contacts.Render(vs[i])), "\n")
  }

  /** `show_all` prints the empty-book text exactly when the book is empty. */
  lemma ShowAllEmpty(b: Directory.Book)
    requires Directory.Indexed(b)
    ensures ShowAll(b) == EmptyBook <==> b.entries == map[]
  {
    if b.entries != map[] {
      var k :| k in b.entries;
      assert b.keys != [];
      var vs := Directory.Values(b);
      var lines := seq(|vs|, i requires 0 <= i < |vs| => Contacts.Render(vs[i]));
      JoinHead(lines, "\n");
      assert lines[0][0] == 'C';
      assert ShowAll(b)[0] == 'C';
      assert EmptyBook[0] != 'C';
    }
  }

  /** `add_birthday`: sets the birthday of a known record. */
  function AddBirthday(b: Directory.Book, args: seq<string>): (r: (Directory.Book, Result<string>))
    ensures r.1.Err? ==> r.0 == b
    ensures r.0 != b ==> |args| >= 2 && args[0] in b.entries
  {
    if |args| < 2 then (b, Err(IndexError(BirthdayArgsMessage)))
    else
      var name, raw := args[0], args[1];
      match Directory.Find(b, name)
      case None => (b, Ok(NotFound(name)))
      case Some(c) =>
        match Contacts.AddBirthday(c, raw)
        case Err(e) => (b, Err(e))
        case Ok(d) => (Directory.AddRecord(b, d), Ok(BirthdayAdded))
  }

  /** `add_birthday` leaves a well-formed book well formed, with the same order. */
  lemma AddBirthdayValid(b: Directory.Book, args: seq<string>)
    requires Directory.Valid(b)
    ensures Directory.Valid(AddBirthday(b, args).0)
    ensures AddBirthday(b, args).0.keys == b.keys
  {
    if |args| >= 2 && args[0] in b.entries {
      var c := b.entries[args[0]];
      Contacts.OperationsKeepValid(c, args[1], args[1]);
      if Contacts.AddBirthday(c, args[1]).Ok? {
        Directory.AddRecordValid(b, Contacts.AddBirthday(c, args[1]).value);
      }
    }
  }

  /** `show_birthday`: the birthday text as it was entered. */
  function ShowBirthday(b: Directory.Book, args: seq<string>): (r: Result<string>)
    ensures r.Err? <==> args == []
  {
    if |args| < 1 then Err(IndexError(NameArgMessage))
    else
      var name := args[0];
      match Directory.Find(b, name)
      case None => Ok(NotFound(name))
      case Some(c) => if c.birthday.None? then Ok(NoBirthday(name)) else Ok(name + ": " + c.birthday.value.value)
  }

  /** Setting a birthday and then asking for it shows the text that was given. */
  lemma BirthdayShown(b: Directory.Book, name: string, raw: string)
    requires Directory.Valid(b) && name in b.entries && ParseBirthday(raw).Ok?
    ensures AddBirthday(b, [name, raw]).1 == Ok(BirthdayAdded)
    ensures ShowBirthday(AddBirthday(b, [name, raw]).0, [name]) == Ok(name + ": " + raw)
  {
  }

  /** One line per greeting: "name: date". */
  function GreetingLines(gs: seq<Upcoming.Greeting>): (lines: seq<string>)
    ensures |lines| == |gs|
    ensures forall i :: 0 <= i < |gs| ==> lines[i] == gs[i].name + ": " + gs[i].congratulationDate
  {
    seq(|gs|, i requires 0 <= i < |gs| => gs[i].name + ": " + gs[i].congratulationDate)
  }

  /** `birthdays`: the greetings due within the week, one per line. */
  function Birthdays(b: Directory.Book, today: Date): Result<string>
    requires ValidDate(today)
    requires forall i :: 0 <= i < |b.keys| ==> b.keys[i] in b.entries
    requires Upcoming.Dated(Directory.Values(b))
  {
    match Upcoming.Upcoming(Directory.Values(b), today)
    case Err(e) => Err(e)
    case Ok(gs) => if gs == [] then Ok(NoBirthdays) else Ok(Join(GreetingLines(gs), "\n"))
  }

  /**
   * A name the book does not hold makes `change`, `phone`, `add-birthday` and
   * `show-birthday` print the not-found text and change nothing.
   */
  lemma UnknownName(b: Directory.Book, args: seq<string>)
    requires |args| >= 1 && args[0] !in b.entries
    ensures |args| >= 3 ==> ChangeContact(b, args) == (b, Ok(NotFound(args[0])))
    ensures ShowPhone(b, args) == Ok(NotFound(args[0]))
    ensures |args| >= 2 ==> AddBirthday(b, args) == (b, Ok(NotFound(args[0])))
    ensures ShowBirthday(b, args) == Ok(NotFound(args[0]))
  {
  }

  /** `phone Unknown`, `show-birthday Unknown` and `add-birthday Unknown 01.01.2000` on a book without that name. */
  lemma UnknownShortCommands(b: Directory.Book)
    requires "Unknown" !in b.entries
    ensures ShowPhone(b, ["Unknown"]) == Ok(NotFound("Unknown"))
    ensures ShowBirthday(b, ["Unknown"]) == Ok(NotFound("Unknown"))
    ensures AddBirthday(b, ["Unknown", "01.01.2000"]) == (b, Ok(NotFound("Unknown")))
  {
    UnknownName(b, ["Unknown"]);
    UnknownName(b, ["Unknown", "01.01.2000"]);
  }

  /**
   * `show_all` prints one line per record, in dict order, each the record's
   * rendering, when no rendering holds a line break.
   */
  lemma ShowAllLines(b: Directory.Book)
    requires Directory.Valid(b) && b.entries != map[]
    requires forall k :: k in b.entries ==> '\n' !in Contacts.Render(b.entries[k])
    ensures var lines := SplitOn(ShowAll(b), '\n');
      |lines| == |b.keys| && forall i :: 0 <= i < |b.keys| ==> lines[i] == Contacts.Render(b.entries[b.keys[i]])
  {
    var vs := Directory.Values(b);
    var lines := seq(|vs|, i requires 0 <= i < |vs| => Contacts.Render(vs[i]));
    assert b.keys != [] by {
      var k :| k in b.entries;
    }
    SplitOnJoin(lines, '\n');
  }

  /** A formatted date is digits and dots only, so it holds no line break. */
  lemma FormatOneLine(d: Date)
    requires ValidDate(d)
    ensures '\n' !in Format(d)
  {
    var s := Format(d);
    forall i | 0 <= i < |s|
      ensures s[i] != '\n'
    {
      if i < 2 {
        assert s[i] == Padded(d.day, 2)[i];
      } else if 3 <= i < 5 {
        assert s[i] == Padded(d.month, 2)[i - 3];
      } else if 6 <= i {
        assert s[i] == Padded(d.year, 4)[i - 6];
      }
    }
  }

  /**
   * `birthdays` prints one "name: date" line per greeting, in the order of the
   * book, when no name holds a line break.
   */
  lemma BirthdaysLines(b: Directory.Book, today: Date)
    requires ValidDate(today) && Directory.Valid(b) && Upcoming.Dated(Directory.Values(b))
    requires forall k :: k in b.entries ==> '\n' !in k
    requires Upcoming.Upcoming(Directory.Values(b), today).Ok?
    ensures var gs := Upcoming.Upcoming(Directory.Values(b), today).value;
      Birthdays(b, today).Ok?
      && (gs == [] ==> Birthdays(b, today).value == NoBirthdays)
      && (gs != [] ==> SplitOn(Birthdays(b, today).value, '\n') == GreetingLines(gs))
  {
    var cs := Directory.Values(b);
    var gs := Upcoming.Upcoming(cs, today).value;
    if gs != [] {
      var lines := GreetingLines(gs);
      forall j | 0 <= j < |gs|
        ensures '\n' !in lines[j]
      {
        GreetingOneLine(b, today, gs[j]);
      }
      SplitOnJoin(lines, '\n');
    }
  }

  lemma GreetingOneLine(b: Directory.Book, today: Date, g: Upcoming.Greeting)
    requires ValidDate(today) && Directory.Valid(b) && Upcoming.Dated(Directory.Values(b))
    requires forall k :: k in b.entries ==> '\n' !in k
    requires Upcoming.Upcoming(Directory.Values(b), today).Ok?
    requires g in Upcoming.Upcoming(Directory.Values(b), today).value
    ensures '\n' !in g.name + ": " + g.congratulationDate
  {
    var cs := Directory.Values(b);
    Upcoming.UpcomingLists(cs, today);
    var i :| 0 <= i < |cs| && Upcoming.GreetingFor(cs[i], today) == Ok(Some(g));
    Upcoming.GreetingDate(cs[i], today);
    var d := Upcoming.NextBirthday(cs[i].birthday.value.date, today).value;
    FormatOneLine(Congratulation(d));
    assert cs[i] == b.entries[b.keys[i]];
  }

  /**
   * Adding a new name with one phone and then a second phone for the same
   * name: "added", then "updated", and `phone` lists both in that order.
   */
  lemma TwoPhones(b: Directory.Book, name: string, p: string, q: string)
    requires Directory.Valid(b) && name !in b.entries && IsName(name) && IsPhone(p) && IsPhone(q)
    ensures AddContact(b, [name, p]).1 == Ok(Added)
    ensures AddContact(AddContact(b, [name, p]).0, [name, q]).1 == Ok(Updated)
    ensures AddContact(AddContact(b, [name, p]).0, [name, q]).0.keys == b.keys + [name]
    ensures ShowPhone(AddContact(AddContact(b, [name, p]).0, [name, q]).0, [name]) == Ok(name + ": " + p + "; " + q)
  {
    StripUnchanged(name);
    AddContactNew(b, name, p);
    var first := AddContact(b, [name, p]);
    AddContactValid(b, [name, p]);
    assert first.0.entries[name].phones == [p];
    AddContactKnown(first.0, name, q);
    var second := AddContact(first.0, [name, q]);
    assert [p] + [q] == [p, q];
    assert second.0.entries[name].phones == [p, q];
    ShowTwo(second.0, name, p, q);
  }

  /**
   * Changing the first of two phones replaces it where it stands: `phone`
   * then lists the new number first.
   */
  lemma ChangeFirstPhone(b: Directory.Book, name: string, p: string, q: string, r: string)
    requires Directory.Valid(b) && name in b.entries && b.entries[name].phones == [p, q] && IsPhone(r)
    ensures ChangeContact(b, [name, p, r]).1 == Ok(Updated)
    ensures ShowPhone(ChangeContact(b, [name, p, r]).0, [name]) == Ok(name + ": " + r + "; " + q)
  {
    var c := b.entries[name];
    assert c.name == name;
    assert Lists.IndexOf(c.phones, p) == 0;
    var d := Contacts.EditPhone(c, p, r).value;
    assert d.phones == [r, q];
    assert ChangeContact(b, [name, p, r]).0 == Directory.AddRecord(b, d);
    ShowTwo(Directory.AddRecord(b, d), name, r, q);
    assert Join([r, q], "; ") == r + "; " + q;
  }

  /** `phone` for a record holding two numbers lists them in order. */
  lemma ShowTwo(b: Directory.Book, name: string, p: string, q: string)
    requires name in b.entries && b.entries[name].phones == [p, q]
    ensures ShowPhone(b, [name]) == Ok(name + ": " + p + "; " + q)
  {
    assert Join([p, q], "; ") == p + "; " + q;
    assert name + ": " + (p + "; " + q) == name + ": " + p + "; " + q;
  }

  /** Two names added in turn and then a second phone for the first. */
  lemma ThreeAdds(n: string, m: string, p: string, q: string, r: string)
    requires IsName(n) && IsName(m) && n != m && IsPhone(p) && IsPhone(q) && IsPhone(r)
    ensures var first := AddContact(Directory.Empty, [n, p]);
      var second := AddContact(first.0, [m, q]);
      var third := AddContact(second.0, [n, r]);
      first.1 == Ok(Added) && second.1 == Ok(Added) && third.1 == Ok(Updated)
      && Directory.Valid(third.0) && third.0.keys == [n, m]
      && n in third.0.entries && third.0.entries[n].phones == [p, r]
  {
    var first := AddContact(Directory.Empty, [n, p]);
    AddNewName(Directory.Empty, n, p);
    var second := AddContact(first.0, [m, q]);
    AddNewName(first.0, m, q);
    AddContactKnown(second.0, n, r);
    AddContactValid(second.0, [n, r]);
    assert [p] + [r] == [p, r];
  }

  /** A new, already stripped name with a valid phone: added at the end of the book. */
  lemma AddNewName(b: Directory.Book, name: string, phone: string)
    requires Directory.Valid(b) && name !in b.entries && IsName(name) && IsPhone(phone)
    ensures AddContact(b, [name, phone]).1 == Ok(Added)
    ensures Directory.Valid(AddContact(b, [name, phone]).0)
    ensures AddContact(b, [name, phone]).0.keys == b.keys + [name]
    ensures AddContact(b, [name, phone]).0.entries == b.entries[name := Contacts.Contact(name, [phone], None)]
  {
    StripUnchanged(name);
    AddContactNew(b, name, phone);
    AddContactValid(b, [name, phone]);
  }

  /**
   * Two names added in turn, a second phone for the first, and then its first
   * phone changed: each step reports as the bot's own test expects.
   */
  lemma TwoContacts(n: string, m: string, p: string, q: string, r: string, t: string)
    requires IsName(n) && IsName(m) && n != m && IsPhone(p) && IsPhone(q) && IsPhone(r) && IsPhone(t)
    ensures var first := AddContact(Directory.Empty, [n, p]);
      var second := AddContact(first.0, [m, q]);
      var third := AddContact(second.0, [n, r]);
      var changed := ChangeContact(third.0, [n, p, t]);
      first.1 == Ok(Added) && second.1 == Ok(Added) && third.1 == Ok(Updated)
      && third.0.keys == [n, m]
      && ShowPhone(third.0, [n]) == Ok(n + ": " + p + "; " + r)
      && changed.1 == Ok(Updated)
      && ShowPhone(changed.0, [n]) == Ok(n + ": " + t + "; " + r)
  {
    ThreeAdds(n, m, p, q, r);
    var third := AddContact(AddContact(AddContact(Directory.Empty, [n, p]).0, [m, q]).0, [n, r]);
    ShowTwo(third.0, n, p, r);
    ChangeFirstPhone(third.0, n, p, r, t);
  }

  /** The first steps of the bot's own test: John, Jane, John again, then John's first number changed. */
  lemma JohnAndJane()
    ensures var john := AddContact(Directory.Empty, ["John", "1234567890"]);
      var jane := AddContact(john.0, ["Jane", "0987654321"]);
      var again := AddContact(jane.0, ["John", "5555555555"]);
      var changed := ChangeContact(again.0, ["John", "1234567890", "1112223333"]);
      john.1 == Ok(Added) && jane.1 == Ok(Added) && again.1 == Ok(Updated)
      && ShowPhone(again.0, ["John"]) == Ok("John" + ": " + "1234567890" + "; " + "5555555555")
      && changed.1 == Ok(Updated)
      && ShowPhone(changed.0, ["John"]) == Ok("John" + ": " + "1112223333" + "; " + "5555555555")
  {
    assert "John"[1] != "Jane"[1];
    TwoContacts("John", "Jane", "1234567890", "0987654321", "5555555555", "1112223333");
  }

  /**
   * `add Test 123`: the phone is refused with the value error, yet "Test"
   * is now in the book, without phones.
   */
  lemma ShortPhoneLeavesRecord(b: Directory.Book)
    requires Directory.Valid(b) && "Test" !in b.entries
    ensures var r := AddContact(b, ["Test", "123"]);
      InputError(r.1) == ValuePrefix + PhoneMessage
      && "Test" in r.0.entries && r.0.entries["Test"].phones == []
      && ShowPhone(r.0, ["Test"]) == Ok(NoPhones("Test"))
  {
    var name, phone := "Test", "123";
    assert !IsPhone(phone) by {
      assert |phone| == 3;
    }
    assert !AllSpace(name) && IsName(name) by {
      assert !IsSpace(name[0]) && !IsSpace(name[3]);
    }
    StripUnchanged(name);
    var c := Contacts.Contact(name, [], None);
    AddContactBadPhone(b, name, phone);
    var r := AddContact(b, [name, phone]);
    assert r == (Directory.AddRecord(b, c), Err(ValueError(PhoneMessage)));
    assert r.0.entries[name] == c;
  }

  /** `add "" 1234567890` and `add "   " 1234567890` are refused and change nothing. */
  lemma BlankNamesRefused(b: Directory.Book)
    requires "" !in b.entries && "   " !in b.entries
    ensures InputError(AddContact(b, ["", "1234567890"]).1) == ValuePrefix + NameMessage
    ensures AddContact(b, ["", "1234567890"]).0 == b
    ensures InputError(AddContact(b, ["   ", "1234567890"]).1) == ValuePrefix + NameMessage
    ensures AddContact(b, ["   ", "1234567890"]).0 == b
  {
    AddContactBlankName(b, "", "1234567890");
    assert AllSpace("   ");
    AddContactBlankName(b, "   ", "1234567890");
  }
}
