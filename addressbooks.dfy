/**
 * `AddressBook` (contact_book.py:92-150): a dict from names to `Record`
 * objects, changed in place. `keys` is the dict's insertion order.
 */
module AddressBooks {
  import opened Wrappers
  import opened Lists
  import opened Calendar
  import opened Records
  import Directory
  import Contacts
  import Upcoming

  /** Each record's current state, under its key. */
  function Views(data: map<string, Record>): (m: map<string, Contacts.Contact>)
    reads data.Values
    ensures m.Keys == data.Keys
    ensures forall k :: k in data ==> m[k] == data[k].View()
  {
    map k | k in data :: data[k].View()
  }

  /** Storing a record under a key updates the views under that key only. */
  lemma ViewsPut(data: map<string, Record>, k: string, r: Record)
    ensures Views(data[k := r]) == Views(data)[k := r.View()]
  {
  }

  /** Dropping a key drops its view and nothing else. */
  lemma ViewsRemove(data: map<string, Record>, k: string)
    ensures Views(data - {k}) == Views(data) - {k}
  {
  }

  /** Each record is stored under its own name, so no two keys share a record. */
  lemma NamesAreKeys(book: AddressBook)
    requires book.Valid()
    ensures forall k :: k in book.data ==> book.data[k].name == k
  {
    forall k | k in book.data
      ensures book.data[k].name == k
    {
      assert book.Model().entries[k] == book.data[k].View();
    }
  }

  /**
   * One pass of the loop in `get_upcoming_birthdays`: the record's greeting if
   * its birthday is due within the week, or the error `replace` raises.
   */
  method GreetingOf(record: Record, today: Date) returns (r: Result<Option<Upcoming.Greeting>>)
    requires ValidDate(today)
    requires record.birthday.Some? ==> ValidDate(record.birthday.value.date)
    ensures r == Upcoming.GreetingFor(record.View(), today)
  {
    if record.birthday.None? {
      return Ok(None);
    }
    var next := Upcoming.NextBirthday(record.birthday.value.date, today);
    if next.Err? {
      return Err(next.error);
    }
    var days := DayNumber(next.value) - DayNumber(today);
    if 0 <= days <= 7 {
      return Ok(Some(Upcoming.Greeting(record.name, Format(Congratulation(next.value)))));
    }
    return Ok(None);
  }

  class AddressBook {
    var keys: seq<string>
    var data: map<string, Record>

    /** The book and its records' current state as a value. */
    function Model(): Directory.Book
      reads this, data.Values
    {
      Directory.Book(keys, Views(data))
    }

    /** Keys listed once each, and each record valid and stored under its own name. */
    ghost predicate Valid()
      reads this, data.Values
    {
      Directory.Valid(Model())
    }

    /** `AddressBook()`: an empty book. */
    constructor ()
      ensures Valid() && Model() == Directory.Empty
    {
      keys := [];
      data := map[];
    }

    /** `add_record`: stores the record under its name, replacing any record there. */
    method AddRecord(r: Record)
      modifies this
      ensures Model() == Directory.AddRecord(old(Model()), r.View())
      ensures data == old(data)[r.name := r]
    {
      ghost var before := Model();
      ghost var stored := data;
      if r.name !in data {
        keys := keys + [r.name];
      }
      data := data[r.name := r];
      assert Views(stored) == before.entries;
      ViewsPut(stored, r.name, r);
    }

    /** `find`: the record stored under exactly this name, if any. */
    method Find(name: string) returns (r: Option<Record>)
      ensures r.Some? <==> name in data
      ensures r.Some? ==> r.value == data[name]
      ensures Directory.Find(Model(), name) == if r.Some? then Some(r.value.View()) else None
    {
      if name in data {
        return Some(data[name]);
      }
      return None;
    }

    /** `delete`: removes the name, or raises `KeyError` when it is absent. */
    method Delete(name: string) returns (err: Option<Error>)
      requires name in data ==> name in keys
      modifies this
      ensures match Directory.Delete(old(Model()), name)
              case Ok(b) => err == None && Model() == b
              case Err(e) => err == Some(e) && Model() == old(Model())
    {
      if name in data {
        ghost var before := Model();
        ghost var stored := data;
        keys := RemoveFirst(keys, name);
        data := data - {name};
        assert Views(stored) == before.entries;
        ViewsRemove(stored, name);
        return None;
      }
      return Some(KeyError(Directory.MissingMessage));
    }

    /**
     * `get_upcoming_birthdays`, with `today` passed in: walks the records in
     * dict order and gathers the greetings due within the week.
     */
    method GetUpcomingBirthdays(today: Date) returns (r: Result<seq<Upcoming.Greeting>>)
      requires forall i :: 0 <= i < |keys| ==> keys[i] in data
      requires Upcoming.Dated(Directory.Values(Model())) && ValidDate(today)
      ensures r == Upcoming.Upcoming(Directory.Values(Model()), today)
    {
      ghost var vs := Directory.Values(Model());
      ghost var rs := Upcoming.Outcomes(vs, today);
      var upcoming := [];
      for i := 0 to |keys|
        invariant Upcoming.Collect(rs[..i]) == Ok(upcoming)
      {
        var record := data[keys[i]];
        assert record.View() == vs[i];
        var outcome := GreetingOf(record, today);
        Upcoming.CollectNext(rs, i, upcoming);
        if outcome.Err? {
          return Err(outcome.error);
        }
        if outcome.value.Some? {
          upcoming := upcoming + [outcome.value.value];
        }
      }
      assert rs[..|keys|] == rs;
      return Ok(upcoming);
    }
  }
}
