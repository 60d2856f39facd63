/**
 * The address book as a value (contact_book.py:92-108): a Python dict from
 * names to contacts, which remembers the order keys were first inserted in.
 */
module Directory {
  import opened Wrappers
  import opened Lists
  import opened Text
  import opened Fields
  import Contacts

  const MissingMessage := "Контакт не знайдено."

  /** The dict's keys in insertion order, and what each key maps to. */
  datatype Book = Book(keys: seq<string>, entries: map<string, Contacts.Contact>)

  const Empty := Book([], map[])

  /** The order lists each key once, and exactly the keys. */
  ghost predicate Indexed(b: Book) {
    Distinct(b.keys)
    && (forall i :: 0 <= i < |b.keys| ==> b.keys[i] in b.entries)
    && (forall k :: k in b.entries ==> k in b.keys)
  }

  /** Every contact is valid and stored under its own name. */
  ghost predicate Valid(b: Book) {
    Indexed(b) && forall k :: k in b.entries ==> b.entries[k].name == k && Contacts.Valid(b.entries[k])
  }

  /**
   * `add_record`: `data[record.name.value] = record`. A new name goes to the
   * end of the order; an existing one is overwritten where it stands.
   */
  function AddRecord(b: Book, c: Contacts.Contact): (r: Book)
    ensures r.entries == b.entries[c.name := c]
  {
    Book(if c.name in b.entries then b.keys else b.keys + [c.name], b.entries[c.name := c])
  }

  /** `find`: `data.get(name)`, looked up with the name exactly as given. */
  function Find(b: Book, name: string): (r: Option<Contacts.Contact>)
    ensures r.Some? <==> name in b.entries
    ensures r.Some? ==> r.value == b.entries[name]
  {
    if name in b.entries then Some(b.entries[name]) else None
  }

  /** `delete`: removes the key, or raises `KeyError` when it is absent. */
  function Delete(b: Book, name: string): (r: Result<Book>)
    requires name in b.entries ==> name in b.keys
    ensures r.Err? <==> name !in b.entries
    ensures r.Err? ==> r.error == KeyError(MissingMessage)
    ensures r.Ok? ==> r.value.entries == b.entries - {name}
  {
    if name in b.entries then Ok(Book(RemoveFirst(b.keys, name), b.entries - {name}))
    else Err(KeyError(MissingMessage))
  }

  /** `data.values()`: the contacts in key order. */
  function Values(b: Book): (vs: seq<Contacts.Contact>)
    requires forall i :: 0 <= i < |b.keys| ==> b.keys[i] in b.entries
    ensures |vs| == |b.keys|
    ensures forall i :: 0 <= i < |b.keys| ==> vs[i] == b.entries[b.keys[i]]
  {
    seq(|b.keys|, i requires 0 <= i < |b.keys| => b.entries[b.keys[i]])
  }

  /** Adding a valid contact keeps the book well formed. */
  lemma AddRecordValid(b: Book, c: Contacts.Contact)
    requires Valid(b) && Contacts.Valid(c)
    ensures Valid(AddRecord(b, c))
  {
  }

  /**
   * A book whose entries agree with `b`'s everywhere except under one stored
   * name is `b` with the contact there replaced.
   */
  lemma AddRecordPointwise(b: Book, after: Book, c: Contacts.Contact)
    requires c.name in b.entries && after.keys == b.keys
    requires after.entries.Keys == b.entries.Keys && after.entries[c.name] == c
    requires forall k :: k in b.entries && k != c.name ==> after.entries[k] == b.entries[k]
    ensures after == AddRecord(b, c)
  {
    assert after.entries == b.entries[c.name := c];
  }

  /** Storing a record again, unchanged, leaves the book as it was. */
  lemma AddRecordSame(b: Book, c: Contacts.Contact)
    requires c.name in b.entries && b.entries[c.name] == c
    ensures AddRecord(b, c) == b
  {
    assert b.entries[c.name := c] == b.entries;
  }

  /** After `add_record`, the contact is found under its own name and nowhere else changes. */
  lemma AddRecordFind(b: Book, c: Contacts.Contact, name: string)
    ensures Find(AddRecord(b, c), name) == if name == c.name then Some(c) else Find(b, name)
  {
  }

  /**
   * Last write wins without moving the key: an existing name keeps its
   * position and only its value changes; a new name is added at the end.
   */
  lemma AddRecordOrder(b: Book, c: Contacts.Contact)
    requires Indexed(b)
    ensures c.name in b.entries ==>
              AddRecord(b, c).keys == b.keys && Values(AddRecord(b, c)) == Values(b)[IndexOf(b.keys, c.name) := c]
    ensures c.name !in b.entries ==> Values(AddRecord(b, c)) == Values(b) + [c]
  {
    if c.name in b.entries {
      var i := IndexOf(b.keys, c.name);
      var r := AddRecord(b, c);
      assert forall j :: 0 <= j < |b.keys| && j != i ==> b.keys[j] != c.name;
    }
  }

  lemma DeleteKeysDistinct(b: Book, name: string)
    requires Indexed(b) && name in b.entries
    ensures Distinct(RemoveFirst(b.keys, name))
    ensures forall k :: k in RemoveFirst(b.keys, name) <==> k in b.keys && k != name
  {
    RemoveDistinct(b.keys, name);
  }

  lemma DeleteKeysStored(b: Book, name: string)
    requires Indexed(b) && name in b.entries
    ensures forall i :: 0 <= i < |RemoveFirst(b.keys, name)| ==> RemoveFirst(b.keys, name)[i] in b.entries - {name}
  {
    var ks := RemoveFirst(b.keys, name);
    RemoveDistinct(b.keys, name);
    forall i | 0 <= i < |ks|
      ensures ks[i] in b.entries - {name}
    {
      assert ks[i] in ks;
    }
  }

  lemma DeleteEntriesListed(b: Book, name: string)
    requires Indexed(b) && name in b.entries
    ensures forall k :: k in b.entries - {name} ==> k in RemoveFirst(b.keys, name)
  {
    RemoveDistinct(b.keys, name);
  }

  /** Deleting drops the key from the order and keeps each remaining key once. */
  lemma DeleteIndexed(b: Book, name: string)
    requires Indexed(b) && name in b.entries
    ensures Indexed(Delete(b, name).value)
    ensures forall k :: k in Delete(b, name).value.keys <==> k in b.keys && k != name
  {
    DeleteKeysDistinct(b, name);
    DeleteKeysStored(b, name);
    DeleteEntriesListed(b, name);
  }

  /** Deleting keeps the book well formed. */
  lemma DeleteValid(b: Book, name: string)
    requires Valid(b) && name in b.entries
    ensures Valid(Delete(b, name).value)
  {
    DeleteIndexed(b, name);
  }

  /** After `delete`, the name is gone and every other name is found as before. */
  lemma DeleteFind(b: Book, name: string, other: string)
    requires Indexed(b) && name in b.entries
    ensures Find(Delete(b, name).value, other) == if other == name then None else Find(b, other)
  {
  }

  /** Adding a new name keeps each key listed once. */
  lemma AddNewIndexed(b: Book, c: Contacts.Contact)
    requires Indexed(b) && c.name !in b.entries
    ensures Indexed(AddRecord(b, c))
  {
    var r := AddRecord(b, c);
    forall i, j | 0 <= i < j < |r.keys|
      ensures r.keys[i] != r.keys[j]
    {
      if j == |b.keys| {
        assert r.keys[i] == b.keys[i] && b.keys[i] in b.entries;
      }
    }
  }

  lemma DeleteAddedKeys(b: Book, c: Contacts.Contact)
    requires Indexed(b) && c.name !in b.entries
    ensures Indexed(AddRecord(b, c)) && Delete(AddRecord(b, c), c.name).Ok?
    ensures Delete(AddRecord(b, c), c.name).value.keys == b.keys
  {
    AddNewIndexed(b, c);
    assert c.name !in b.keys;
    RemoveAppended(b.keys, c.name);
  }

  lemma DeleteAddedEntries(b: Book, c: Contacts.Contact)
    requires Indexed(b) && c.name !in b.entries
    ensures Indexed(AddRecord(b, c)) && Delete(AddRecord(b, c), c.name).Ok?
    ensures Delete(AddRecord(b, c), c.name).value.entries == b.entries
  {
    AddNewIndexed(b, c);
  }

  /** Deleting a name that was just added gives the book back. */
  lemma DeleteUndoesAdd(b: Book, c: Contacts.Contact)
    requires Indexed(b) && c.name !in b.entries
    ensures Indexed(AddRecord(b, c)) && Delete(AddRecord(b, c), c.name) == Ok(b)
  {
    DeleteAddedKeys(b, c);
    DeleteAddedEntries(b, c);
  }

  /**
   * The module's demonstration: John stored, then Jane, then Jane deleted,
   * leaves John alone in the book.
   */
  lemma JaneDeleted(john: Contacts.Contact, jane: Contacts.Contact)
    requires john.name == "John" && jane.name == "Jane"
    ensures var both := AddRecord(AddRecord(Empty, john), jane);
      Indexed(both) && Delete(both, "Jane") == Ok(AddRecord(Empty, john))
      && Find(Delete(both, "Jane").value, "John") == Some(john)
  {
    var first := AddRecord(Empty, john);
    AddNewIndexed(Empty, john);
    assert "John"[1] != "Jane"[1];
    DeleteUndoesAdd(first, jane);
  }

  /**
   * A record is stored under its stripped name but looked up with the text as
   * given: a record made from padded text is not found by that text.
   */
  lemma PaddedNameNotFound(b: Book, raw: string)
    requires Contacts.New(raw).Ok? && raw !in b.entries
    requires raw != [] && IsSpace(raw[0])
    ensures Find(AddRecord(b, Contacts.New(raw).value), raw) == None
    ensures Find(AddRecord(b, Contacts.New(raw).value), Strip(raw)) == Some(Contacts.New(raw).value)
  {
  }
}
