/**
 * `Record` (contact_book.py:46-89): a name, a list of phone numbers and an
 * optional birthday, changed in place by its methods. Each method that can
 * raise returns the error it raises, or `None`.
 */
module Records {
  import opened Wrappers
  import opened Lists
  import opened Fields
  import Contacts

  class Record {
    const name: string
    var phones: seq<string>
    var birthday: Option<Birthday>

    /** The record's current state as a value. */
    function View(): Contacts.Contact
      reads this
    {
      Contacts.Contact(name, phones, birthday)
    }

    predicate Valid()
      reads this
    {
      Contacts.Valid(View())
    }

    /** `Record(name)` once the name has been validated. */
    constructor Init(n: string)
      requires IsName(n)
      ensures View() == Contacts.Contact(n, [], None) && Valid()
    {
      name := n;
      phones := [];
      birthday := None;
    }

    /** `Record(raw)`: a new record, or the `ValueError` of an empty name. */
    static method Create(raw: string) returns (r: Result<Record>)
      ensures r.Err? <==> Contacts.New(raw).Err?
      ensures r.Err? ==> r.error == Contacts.New(raw).error
      ensures r.Ok? ==> fresh(r.value) && r.value.View() == Contacts.New(raw).value && r.value.Valid()
    {
      var n := NameValue(raw);
      if n.Err? {
        return Err(n.error);
      }
      var record := new Record.Init(n.value);
      return Ok(record);
    }

    /** `add_phone`. */
    method AddPhone(p: string) returns (err: Option<Error>)
      modifies this
      ensures Contacts.Applied(Contacts.AddPhone(old(View()), p), err, old(View()), View())
      ensures old(Valid()) ==> Valid()
    {
      if Valid() {
        Contacts.OperationsKeepValid(View(), p, p);
      }
      var v := PhoneValue(p);
      if v.Err? {
        return Some(v.error);
      }
      phones := phones + [v.value];
      return None;
    }

    /** `find_phone`: the first number equal to `p`, searched front to back. */
    method FindPhone(p: string) returns (found: Option<nat>)
      ensures found.Some? <==> p in phones
      ensures found.Some? ==> found.value == IndexOf(phones, p) && phones[found.value] == p
    {
      for i := 0 to |phones|
        invariant p !in phones[..i]
      {
        if phones[i] == p {
          IndexOfAt(phones, p, i);
          return Some(i);
        }
      }
      assert phones[..|phones|] == phones;
      return None;
    }

    /** `remove_phone`: removes the number `find_phone` found. */
    method RemovePhone(p: string) returns (err: Option<Error>)
      modifies this
      ensures Contacts.Applied(Contacts.RemovePhone(old(View()), p), err, old(View()), View())
      ensures old(Valid()) ==> Valid()
    {
      if Valid() {
        Contacts.OperationsKeepValid(View(), p, p);
      }
      var found := FindPhone(p);
      if found.None? {
        return Some(ValueError(Contacts.RemoveMessage));
      }
      phones := RemoveFirst(phones, phones[found.value]);
      return None;
    }

    /** `edit_phone`: overwrites the first number equal to `from`. */
    method EditPhone(from: string, to: string) returns (err: Option<Error>)
      modifies this
      ensures Contacts.Applied(Contacts.EditPhone(old(View()), from, to), err, old(View()), View())
      ensures old(Valid()) ==> Valid()
    {
      if Valid() {
        Contacts.OperationsKeepValid(View(), from, to);
      }
      for i := 0 to |phones|
        invariant phones == old(phones) && birthday == old(birthday)
        invariant from !in phones[..i]
      {
        if phones[i] == from {
          var v := PhoneValue(to);
          if v.Err? {
            return Some(v.error);
          }
          IndexOfAt(phones, from, i);
          phones := phones[i := v.value];
          return None;
        }
      }
      assert phones[..|phones|] == phones;
      return Some(ValueError(Contacts.EditMessage));
    }

    /** `add_birthday`: replaces the birthday with a parsed one. */
    method AddBirthday(raw: string) returns (err: Option<Error>)
      modifies this
      ensures Contacts.Applied(Contacts.AddBirthday(old(View()), raw), err, old(View()), View())
      ensures old(Valid()) ==> Valid()
    {
      if Valid() {
        Contacts.OperationsKeepValid(View(), raw, raw);
      }
      var b := ParseBirthday(raw);
      if b.Err? {
        return Some(b.error);
      }
      birthday := Some(b.value);
      return None;
    }
  }
}
