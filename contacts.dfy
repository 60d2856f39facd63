/**
 * A contact as a value: the state of one `Record` (contact_book.py:46-89) and
 * what each of its operations makes of it. The `Record` class in `Records`
 * is proved to follow these functions.
 */
module Contacts {
  import opened Wrappers
  import opened Text
  import opened Lists
  import opened Calendar
  import opened Fields

  const RemoveMessage := "Номер телефону не знайдено."
  const EditMessage := "Номер телефону для редагування не знайдено."

  datatype Contact = Contact(name: string, phones: seq<string>, birthday: Option<Birthday>)

  /** What every `Record` keeps: a stored name, valid phones, a real birthday. */
  predicate Valid(c: Contact) {
    IsName(c.name)
    && (forall i :: 0 <= i < |c.phones| ==> IsPhone(c.phones[i]))
    && (c.birthday.Some? ==> ValidDate(c.birthday.value.date))
  }

  /**
   * How an operation's outcome shows on the object: on success the new state
   * is the result and nothing is raised; on failure the error is raised and
   * the state is as it was.
   */
  predicate Applied(r: Result<Contact>, err: Option<Error>, before: Contact, after: Contact) {
    if r.Ok? then err == None && after == r.value else err == Some(r.error) && after == before
  }

  /** `Record(name)`: a new contact with no phones and no birthday. */
  function New(raw: string): (r: Result<Contact>)
    ensures r.Err? <==> AllSpace(raw)
    ensures r.Err? ==> r.error == ValueError(NameMessage)
    ensures r.Ok? ==> Valid(r.value) && r.value == Contact(Strip(raw), [], None)
  {
    match NameValue(raw)
    case Err(e) => Err(e)
    case Ok(n) => Ok(Contact(n, [], None))
  }

  /**
   * `add_phone`: a ten-digit number is appended at the end, even when it is
   * already there; anything else raises and changes nothing.
   */
  function AddPhone(c: Contact, p: string): (r: Result<Contact>)
    ensures r.Ok? <==> IsPhone(p)
    ensures r.Ok? ==> r.value.name == c.name && r.value.birthday == c.birthday
    ensures r.Ok? ==> |r.value.phones| == |c.phones| + 1 && r.value.phones[..|c.phones|] == c.phones
    ensures r.Ok? ==> r.value.phones[|c.phones|] == p
    ensures r.Err? ==> r.error == ValueError(PhoneMessage)
  {
    match PhoneValue(p)
    case Err(e) => Err(e)
    case Ok(v) => Ok(c.(phones := c.phones + [v]))
  }

  /** `remove_phone`: the first equal number is removed; a missing one raises. */
  function RemovePhone(c: Contact, p: string): (r: Result<Contact>)
    ensures r.Ok? <==> p in c.phones
    ensures r.Ok? ==> r.value == c.(phones := RemoveFirst(c.phones, p))
    ensures r.Err? ==> r.error == ValueError(RemoveMessage)
  {
    if p in c.phones then Ok(c.(phones := RemoveFirst(c.phones, p))) else Err(ValueError(RemoveMessage))
  }

  /**
   * `edit_phone`: the first number equal to `from` is overwritten where it
   * stands. A missing `from` raises before `to` is looked at; an invalid `to`
   * raises and changes nothing.
   */
  function EditPhone(c: Contact, from: string, to: string): (r: Result<Contact>)
    ensures r.Ok? <==> from in c.phones && IsPhone(to)
    ensures from !in c.phones ==> r == Err(ValueError(EditMessage))
    ensures from in c.phones && !IsPhone(to) ==> r == Err(ValueError(PhoneMessage))
    ensures r.Ok? ==> r.value.name == c.name && r.value.birthday == c.birthday
    ensures r.Ok? ==> |r.value.phones| == |c.phones| && r.value.phones[IndexOf(c.phones, from)] == to
    ensures r.Ok? ==> forall j :: 0 <= j < |c.phones| && j != IndexOf(c.phones, from) ==> r.value.phones[j] == c.phones[j]
  {
    if from !in c.phones then Err(ValueError(EditMessage))
    else
      match PhoneValue(to)
      case Err(e) => Err(e)
      case Ok(v) => Ok(c.(phones := ReplaceFirst(c.phones, from, v)))
  }

  /** `add_birthday`: a date the parser accepts replaces any earlier birthday. */
  function AddBirthday(c: Contact, raw: string): (r: Result<Contact>)
    ensures r.Ok? <==> ParseBirthday(raw).Ok?
    ensures r.Ok? ==> r.value.name == c.name && r.value.phones == c.phones
    ensures r.Ok? ==> r.value.birthday.Some? && r.value.birthday.value.value == raw
    ensures r.Ok? ==> ValidDate(r.value.birthday.value.date)
    ensures r.Ok? ==> r.value.birthday.value.date == ParseBirthday(raw).value.date
    ensures r.Err? ==> r.error == ValueError(DateMessage)
  {
    match ParseBirthday(raw)
    case Err(e) => Err(e)
    case Ok(b) => Ok(c.(birthday := Some(b)))
  }

  /** Every operation that succeeds on a valid contact leaves it valid. */
  lemma OperationsKeepValid(c: Contact, p: string, q: string)
    requires Valid(c)
    ensures AddPhone(c, p).Ok? ==> Valid(AddPhone(c, p).value)
    ensures RemovePhone(c, p).Ok? ==> Valid(RemovePhone(c, p).value)
    ensures EditPhone(c, p, q).Ok? ==> Valid(EditPhone(c, p, q).value)
    ensures AddBirthday(c, p).Ok? ==> Valid(AddBirthday(c, p).value)
  {
    if RemovePhone(c, p).Ok? {
      var r := RemovePhone(c, p).value.phones;
      var i := IndexOf(c.phones, p);
      forall j | 0 <= j < |r|
        ensures IsPhone(r[j])
      {
        RemoveFirstAt(c.phones, p, j);
      }
    }
  }

  /** Removing a number that was just added gives the contact back. */
  lemma RemoveUndoesAdd(c: Contact, p: string)
    requires IsPhone(p) && p !in c.phones
    ensures RemovePhone(AddPhone(c, p).value, p) == Ok(c)
  {
    var ps := AddPhone(c, p).value.phones;
    assert ps == c.phones + [p];
    IndexOfAt(ps, p, |c.phones|);
    assert ps[..|c.phones|] == c.phones && ps[|c.phones| + 1..] == [];
    assert RemoveFirst(ps, p) == c.phones;
  }

  /** Adding never merges duplicates: the number occurs once more than before. */
  lemma AddPhoneCounts(c: Contact, p: string)
    requires IsPhone(p)
    ensures multiset(AddPhone(c, p).value.phones)[p] == multiset(c.phones)[p] + 1
  {
    assert AddPhone(c, p).value.phones == c.phones + [p];
  }

  /**
   * Editing `from` to an absent `to` and back gives the contact back: the edit
   * happens in place and touches nothing else.
   */
  lemma EditUndoesEdit(c: Contact, from: string, to: string)
    requires Valid(c) && from in c.phones && IsPhone(to) && to !in c.phones
    ensures EditPhone(c, from, to).Ok?
    ensures EditPhone(EditPhone(c, from, to).value, to, from) == Ok(c)
  {
    var i := IndexOf(c.phones, from);
    var d := EditPhone(c, from, to).value;
    assert IsPhone(from);
    assert d.phones[..i] == c.phones[..i];
    IndexOfAt(d.phones, to, i);
    var e := EditPhone(d, to, from).value;
    assert e.phones == c.phones;
  }

  /** Editing swaps one occurrence of `from` for one of `to`. */
  lemma EditPhoneCounts(c: Contact, from: string, to: string)
    requires EditPhone(c, from, to).Ok?
    ensures multiset(EditPhone(c, from, to).value.phones) == multiset(c.phones) - multiset{from} + multiset{to}
  {
    var i := IndexOf(c.phones, from);
    var r := EditPhone(c, from, to).value.phones;
    assert r == c.phones[..i] + [to] + c.phones[i + 1..];
    ReplaceAtCounts(c.phones, i, to);
  }

  /** `str(record)`: name, the numbers joined by "; ", and the birthday text if set. */
  function Render(c: Contact): string
  {
    "Contact name: " + c.name + ", phones: " + Join(c.phones, "; ")
      + (if c.birthday.Some? then ", birthday: " + c.birthday.value.value else "")
  }

  /**
   * A rendering starts with the name, ends with the birthday text when there is
   * one, and the phones are read back from what lies between.
   */
  lemma RenderReadsBack(c: Contact)
    requires Valid(c)
    ensures var head := "Contact name: " + c.name + ", phones: ";
      var tail := if c.birthday.Some? then ", birthday: " + c.birthday.value.value else "";
      var out := Render(c);
      |head| + |tail| <= |out| && out[..|head|] == head && out[|out| - |tail|..] == tail
      && PhonesOf(out[|head|..|out| - |tail|]) == c.phones
  {
    var head := "Contact name: " + c.name + ", phones: ";
    var tail := if c.birthday.Some? then ", birthday: " + c.birthday.value.value else "";
    var middle := Join(c.phones, "; ");
    assert Render(c) == head + middle + tail;
    assert (head + middle + tail)[|head|..|head| + |middle|] == middle;
    PhonesRoundTrip(c.phones);
  }

  /**
   * John's record of the module's demonstration: after his first number is
   * edited, it prints with the new number first and the second kept.
   */
  lemma EditedJohnPrints()
    ensures var john := Contact("John", ["1234567890", "5555555555"], None);
      EditPhone(john, "1234567890", "1112223333").Ok?
      && Render(EditPhone(john, "1234567890", "1112223333").value)
         == "Contact name: " + "John" + ", phones: " + "1112223333" + "; " + "5555555555"
  {
    var john := Contact("John", ["1234567890", "5555555555"], None);
    assert IndexOf(john.phones, "1234567890") == 0;
    var edited := EditPhone(john, "1234567890", "1112223333").value;
    assert edited.phones == ["1112223333", "5555555555"];
    assert Join(edited.phones, "; ") == "1112223333" + "; " + "5555555555";
  }

  /** Reads a "; "-joined list of ten-digit numbers back. */
  function PhonesOf(t: string): seq<string>
    decreases |t|
  {
    if t == [] then []
    else if |t| <= 12 then [t[..if |t| < 10 then |t| else 10]]
    else [t[..10]] + PhonesOf(t[12..])
  }

  /** The phone list is recovered from its rendering. */
  lemma {:induction false} PhonesRoundTrip(ps: seq<string>)
    requires forall i :: 0 <= i < |ps| ==> |ps[i]| == 10
    ensures PhonesOf(Join(ps, "; ")) == ps
  {
    if |ps| == 1 {
      assert Join(ps, "; ")[..10] == ps[0];
    } else if |ps| > 1 {
      var t := Join(ps, "; ");
      var rest := Join(ps[1..], "; ");
      assert t == ps[0] + "; " + rest;
      assert t[..10] == ps[0] && t[12..] == rest;
      PhonesRoundTrip(ps[1..]);
      assert |rest| >= 10 by {
        assert rest == ps[1] || rest[..10] == ps[1];
      }
      assert ps == [ps[0]] + ps[1..];
    }
  }
}
