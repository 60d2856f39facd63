/**
 * `AddressBook.get_upcoming_birthdays` (contact_book.py:110-150) on values,
 * with the reference date passed in instead of read from the clock.
 */
module Upcoming {
  import opened Wrappers
  import opened Calendar
  import opened Fields
  import Text
  import Contacts

  /** One entry of the result: `{"name": ..., "congratulation_date": ...}`. */
  datatype Greeting = Greeting(name: string, congratulationDate: string)

  /**
   * The birthday moved to the reference year, or to the next year when that
   * has already passed (contact_book.py:126-130). `replace(year=...)` raises
   * for 29 February in a common year and for year 10000.
   */
  function NextBirthday(b: Date, today: Date): (r: Result<Date>)
    requires ValidDate(today)
    ensures r.Ok? ==> ValidDate(r.value) && r.value.month == b.month && r.value.day == b.day
    ensures r.Ok? ==> !Before(r.value, today)
    ensures r.Ok? ==> r.value.year == today.year || r.value.year == today.year + 1
    ensures r.Err? ==> r.error.ValueError?
  {
    match ReplaceYear(b, today.year)
    case Err(e) => Err(e)
    case Ok(d) => if Before(d, today) then ReplaceYear(b, today.year + 1) else Ok(d)
  }

  /** No anniversary of the birthday on or after today comes before the one chosen. */
  lemma NextBirthdayIsFirst(b: Date, today: Date, x: Date)
    requires ValidDate(today) && NextBirthday(b, today).Ok?
    requires ValidDate(x) && x.month == b.month && x.day == b.day && !Before(x, today)
    ensures !Before(x, NextBirthday(b, today).value)
  {
  }

  /**
   * The projection fails exactly for 29 February when this year's is missing or
   * past (the next year is then a common year), and in year 9999 once the
   * birthday has passed.
   */
  lemma NextBirthdayFails(b: Date, today: Date)
    requires ValidDate(b) && ValidDate(today)
    ensures NextBirthday(b, today).Err? <==>
              (b.month == 2 && b.day == 29 && (!IsLeap(today.year) || today.month > 2))
              || (today.year == MaxYear && Before(Date(MaxYear, b.month, b.day), today))
  {
    if b.month == 2 && b.day == 29 && IsLeap(today.year) {
      assert !IsLeap(today.year + 1);
    }
  }

  /** Every birthday a contact list holds is a real date. */
  predicate Dated(cs: seq<Contacts.Contact>) {
    forall i :: 0 <= i < |cs| ==> cs[i].birthday.Some? ==> ValidDate(cs[i].birthday.value.date)
  }

  /**
   * One iteration of the loop: a contact with a birthday 0..7 days after its
   * next occurrence is greeted on that day, moved off the weekend.
   */
  function GreetingFor(c: Contacts.Contact, today: Date): (r: Result<Option<Greeting>>)
    requires ValidDate(today)
    requires c.birthday.Some? ==> ValidDate(c.birthday.value.date)
    ensures c.birthday.None? ==> r == Ok(None)
    ensures r.Ok? && r.value.Some? ==> r.value.value.name == c.name
  {
    if c.birthday.None? then Ok(None)
    else
      match NextBirthday(c.birthday.value.date, today)
      case Err(e) => Err(e)
      case Ok(d) =>
        var gap := DayNumber(d) - DayNumber(today);
        if 0 <= gap <= 7 then Ok(Some(Greeting(c.name, Format(Congratulation(d))))) else Ok(None)
  }

  /** Some anniversary of `b` falls within the seven days after `today`, or on it. */
  ghost predicate DueWithinWeek(b: Date, today: Date)
    requires ValidDate(today)
  {
    exists x :: ValidDate(x) && x.month == b.month && x.day == b.day
      && DayNumber(today) <= DayNumber(x) <= DayNumber(today) + 7
  }

  /** A contact is greeted exactly when its birthday is due within the week. */
  lemma GreetedWhenDue(c: Contacts.Contact, today: Date)
    requires ValidDate(today) && c.birthday.Some? && ValidDate(c.birthday.value.date)
    requires NextBirthday(c.birthday.value.date, today).Ok?
    ensures GreetingFor(c, today).Ok?
    ensures GreetingFor(c, today).value.Some? <==> DueWithinWeek(c.birthday.value.date, today)
  {
    var b := c.birthday.value.date;
    var d := NextBirthday(b, today).value;
    BeforeIsEarlier(d, today);
    if DueWithinWeek(b, today) {
      var x :| ValidDate(x) && x.month == b.month && x.day == b.day
        && DayNumber(today) <= DayNumber(x) <= DayNumber(today) + 7;
      BeforeIsEarlier(x, today);
      NextBirthdayIsFirst(b, today, x);
      BeforeIsEarlier(x, d);
    }
  }

  /**
   * The greeting date is the anniversary itself on a weekday and the following
   * Monday on a weekend: a working day at most two days later.
   */
  lemma GreetingDate(c: Contacts.Contact, today: Date)
    requires ValidDate(today) && c.birthday.Some? && ValidDate(c.birthday.value.date)
    requires GreetingFor(c, today).Ok? && GreetingFor(c, today).value.Some?
    ensures NextBirthday(c.birthday.value.date, today).Ok?
    ensures var d := NextBirthday(c.birthday.value.date, today).value;
      var w := Congratulation(d);
      GreetingFor(c, today).value.value.congratulationDate == Format(w)
      && Weekday(w) < 5 && (Weekday(d) < 5 ==> w == d)
      && DayNumber(today) <= DayNumber(d) <= DayNumber(w) <= DayNumber(d) + 2
      && DayNumber(d) <= DayNumber(today) + 7
  {
    var d := NextBirthday(c.birthday.value.date, today).value;
    BeforeIsEarlier(d, today);
  }

  /**
   * Gathers per-contact outcomes front to back: `None` adds nothing, `Some`
   * appends its greeting, and the first error is raised.
   */
  function Collect<T>(rs: seq<Result<Option<T>>>): (r: Result<seq<T>>)
    ensures r.Ok? ==> |r.value| <= |rs|
    decreases |rs|
  {
    if rs == [] then Ok([])
    else
      match Collect(rs[..|rs| - 1])
      case Err(e) => Err(e)
      case Ok(gs) =>
        match rs[|rs| - 1]
        case Err(e) => Err(e)
        case Ok(None) => Ok(gs)
        case Ok(Some(g)) => Ok(gs + [g])
  }

  /**
   * Collecting fails exactly when some outcome is an error, and then with the
   * first error.
   */
  lemma {:induction false} CollectFails<T>(rs: seq<Result<Option<T>>>)
    ensures Collect(rs).Err? <==> exists i :: 0 <= i < |rs| && rs[i].Err?
    ensures Collect(rs).Err? ==>
              exists i :: 0 <= i < |rs| && rs[i] == Err(Collect(rs).error) && forall j :: 0 <= j < i ==> rs[j].Ok?
    decreases |rs|
  {
    if rs != [] {
      var init := rs[..|rs| - 1];
      CollectFails(init);
      assert forall j :: 0 <= j < |init| ==> init[j] == rs[j];
    }
  }

  /** A successful collection holds exactly the greetings the outcomes carry. */
  lemma {:induction false} CollectLists<T>(rs: seq<Result<Option<T>>>)
    requires Collect(rs).Ok?
    ensures forall g :: g in Collect(rs).value <==> Ok(Some(g)) in rs
    decreases |rs|
  {
    if rs != [] {
      var init := rs[..|rs| - 1];
      CollectLists(init);
      assert rs == init + [rs[|rs| - 1]];
    }
  }

  /** Collecting a concatenation concatenates the collections, in order. */
  lemma {:induction false} CollectAppend<T>(rs: seq<Result<Option<T>>>, qs: seq<Result<Option<T>>>)
    ensures Collect(rs + qs) ==
              match Collect(rs)
              case Err(e) => Err(e)
              case Ok(gs) =>
                match Collect(qs)
                case Err(e) => Err(e)
                case Ok(hs) => Ok(gs + hs)
    decreases |qs|
  {
    if qs == [] {
      assert rs + qs == rs;
      if Collect(rs).Ok? {
        assert Collect(rs).value + [] == Collect(rs).value;
      }
    } else {
      var init := qs[..|qs| - 1];
      assert (rs + qs)[..|rs + qs| - 1] == rs + init;
      assert (rs + qs)[|rs + qs| - 1] == qs[|qs| - 1];
      CollectAppend(rs, init);
      if Collect(rs).Ok? && Collect(init).Ok? && qs[|qs| - 1].Ok? && qs[|qs| - 1].value.Some? {
        var gs, hs, g := Collect(rs).value, Collect(init).value, qs[|qs| - 1].value.value;
        assert gs + hs + [g] == gs + (hs + [g]);
      }
    }
  }

  /** One more outcome extends the collection of a prefix. */
  lemma CollectStep<T>(rs: seq<Result<Option<T>>>, i: nat)
    requires i < |rs|
    ensures Collect(rs[..i + 1]) ==
              match Collect(rs[..i])
              case Err(e) => Err(e)
              case Ok(gs) =>
                match rs[i]
                case Err(e) => Err(e)
                case Ok(None) => Ok(gs)
                case Ok(Some(g)) => Ok(gs + [g])
  {
    assert rs[..i + 1][..i] == rs[..i];
  }

  /** Once a prefix fails, the whole collection fails with the same error. */
  lemma CollectPrefixFails<T>(rs: seq<Result<Option<T>>>, i: nat)
    requires i <= |rs| && Collect(rs[..i]).Err?
    ensures Collect(rs) == Collect(rs[..i])
  {
    CollectAppend(rs[..i], rs[i..]);
    assert rs[..i] + rs[i..] == rs;
  }

  /** What one more outcome does to a collection that has succeeded so far. */
  lemma CollectNext<T>(rs: seq<Result<Option<T>>>, i: nat, gs: seq<T>)
    requires i < |rs| && Collect(rs[..i]) == Ok(gs)
    ensures rs[i].Err? ==> Collect(rs) == Err(rs[i].error)
    ensures rs[i] == Ok(None) ==> Collect(rs[..i + 1]) == Ok(gs)
    ensures rs[i].Ok? && rs[i].value.Some? ==> Collect(rs[..i + 1]) == Ok(gs + [rs[i].value.value])
  {
    CollectStep(rs, i);
    if rs[i].Err? {
      CollectPrefixFails(rs, i + 1);
    }
  }

  /** What the loop body yields for each contact, in order. */
  function Outcomes(cs: seq<Contacts.Contact>, today: Date): (rs: seq<Result<Option<Greeting>>>)
    requires ValidDate(today) && Dated(cs)
    ensures |rs| == |cs| && forall i :: 0 <= i < |cs| ==> rs[i] == GreetingFor(cs[i], today)
  {
    seq(|cs|, i requires 0 <= i < |cs| => GreetingFor(cs[i], today))
  }

  /** The whole loop over the contacts in dict order. */
  function Upcoming(cs: seq<Contacts.Contact>, today: Date): Result<seq<Greeting>>
    requires ValidDate(today) && Dated(cs)
  {
    Collect(Outcomes(cs, today))
  }

  /**
   * The call raises exactly when some contact's projection raises, and then
   * with the error of the first such contact.
   */
  lemma UpcomingFails(cs: seq<Contacts.Contact>, today: Date)
    requires ValidDate(today) && Dated(cs)
    ensures Upcoming(cs, today).Err? <==> exists i :: 0 <= i < |cs| && GreetingFor(cs[i], today).Err?
    ensures Upcoming(cs, today).Err? ==>
              exists i :: 0 <= i < |cs| && GreetingFor(cs[i], today) == Err(Upcoming(cs, today).error)
                && forall j :: 0 <= j < i ==> GreetingFor(cs[j], today).Ok?
  {
    CollectFails(Outcomes(cs, today));
  }

  /**
   * When the call returns, it lists exactly the greetings of the contacts whose
   * birthday is due.
   */
  lemma UpcomingLists(cs: seq<Contacts.Contact>, today: Date)
    requires ValidDate(today) && Dated(cs) && Upcoming(cs, today).Ok?
    ensures forall g :: g in Upcoming(cs, today).value <==>
              exists i :: 0 <= i < |cs| && GreetingFor(cs[i], today) == Ok(Some(g))
  {
    var rs := Outcomes(cs, today);
    CollectLists(rs);
    forall g | Ok(Some(g)) in rs
      ensures exists i :: 0 <= i < |cs| && GreetingFor(cs[i], today) == Ok(Some(g))
    {
      var i :| 0 <= i < |rs| && rs[i] == Ok(Some(g));
    }
  }

  /** Greetings keep the order of the contacts. */
  lemma UpcomingAppend(cs: seq<Contacts.Contact>, ds: seq<Contacts.Contact>, today: Date)
    requires ValidDate(today) && Dated(cs) && Dated(ds)
    ensures Dated(cs + ds)
    ensures Upcoming(cs + ds, today) ==
              match Upcoming(cs, today)
              case Err(e) => Err(e)
              case Ok(gs) =>
                match Upcoming(ds, today)
                case Err(e) => Err(e)
                case Ok(hs) => Ok(gs + hs)
  {
    assert Dated(cs + ds) by {
      forall i | 0 <= i < |cs + ds|
        ensures (cs + ds)[i].birthday.Some? ==> ValidDate((cs + ds)[i].birthday.value.date)
      {
        if i >= |cs| {
          assert (cs + ds)[i] == ds[i - |cs|];
        }
      }
    }
    assert Outcomes(cs + ds, today) == Outcomes(cs, today) + Outcomes(ds, today);
    CollectAppend(Outcomes(cs, today), Outcomes(ds, today));
  }

  /**
   * Reference Monday 28 October 2024: a birthday on 1 November is greeted that
   * Friday; one on 2 November falls on a Saturday and is greeted on Monday
   * 4 November; one on 5 November is eight days away and not listed.
   */
  lemma WeekOfOctober28()
    ensures GreetingFor(Contacts.Contact("John", [], Some(Birthday("01.11.1990", Date(1990, 11, 1)))), Date(2024, 10, 28))
              == Ok(Some(Greeting("John", Format(Date(2024, 11, 1)))))
    ensures GreetingFor(Contacts.Contact("Ann", [], Some(Birthday("02.11.1990", Date(1990, 11, 2)))), Date(2024, 10, 28))
              == Ok(Some(Greeting("Ann", Format(Date(2024, 11, 4)))))
    ensures GreetingFor(Contacts.Contact("Jane", [], Some(Birthday("05.11.1985", Date(1985, 11, 5)))), Date(2024, 10, 28))
              == Ok(None)
  {
    GreetedThatFriday();
    GreetedNextMonday();
    NotGreetedEightDaysOut();
  }

  lemma GreetedThatFriday()
    ensures GreetingFor(Contacts.Contact("John", [], Some(Birthday("01.11.1990", Date(1990, 11, 1)))), Date(2024, 10, 28))
              == Ok(Some(Greeting("John", Format(Date(2024, 11, 1)))))
  {
    var today, d := Date(2024, 10, 28), Date(2024, 11, 1);
    assert NextBirthday(Date(1990, 11, 1), today) == Ok(d);
    assert DayNumber(d) == DayNumber(today) + 4;
    assert Weekday(d) == 4;
  }

  lemma GreetedNextMonday()
    ensures GreetingFor(Contacts.Contact("Ann", [], Some(Birthday("02.11.1990", Date(1990, 11, 2)))), Date(2024, 10, 28))
              == Ok(Some(Greeting("Ann", Format(Date(2024, 11, 4)))))
  {
    var today, d := Date(2024, 10, 28), Date(2024, 11, 2);
    assert NextBirthday(Date(1990, 11, 2), today) == Ok(d);
    assert DayNumber(d) == DayNumber(today) + 5;
    assert Weekday(d) == 5;
    assert NextDay(NextDay(d)) == Date(2024, 11, 4);
  }

  lemma NotGreetedEightDaysOut()
    ensures GreetingFor(Contacts.Contact("Jane", [], Some(Birthday("05.11.1985", Date(1985, 11, 5)))), Date(2024, 10, 28))
              == Ok(None)
  {
    var today, d := Date(2024, 10, 28), Date(2024, 11, 5);
    assert NextBirthday(Date(1985, 11, 5), today) == Ok(d);
    assert DayNumber(d) == DayNumber(today) + 8;
  }

  /** The greeting date is written day, month and year, zero-padded. */
  lemma FormatExample()
    ensures Format(Date(2024, 11, 4)) == "04" + "." + "11" + "." + "2024"
  {
    assert Text.Padded(0, 1) == "0" && Text.Padded(4, 2) == "04";
    assert Text.Padded(1, 1) == "1" && Text.Padded(11, 2) == "11";
    assert Text.Padded(2, 1) == "2" && Text.Padded(20, 2) == "20";
    assert Text.Padded(202, 3) == "202" && Text.Padded(2024, 4) == "2024";
  }
}
