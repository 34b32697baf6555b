/**
 * The three queries behind the admin summary of one day, as functions over
 * the table's rows. Each looks only at the rows of the requested local date.
 * The first sums the quantities per drink and session, listed by session and
 * then drink; the second sums them per person, drink and session, listed by
 * name; the third is the day's grand total, with an empty day reported as 0
 * rather than NULL. A group is identified by a Key whose
 * components are the grouping columns in the order the result is sorted by.
 */
module Aggregates {
  import opened Wrappers
  import opened Strings
  import opened Entries

  /** The rows of one local date, kept in table order. */
  function OnDate(rows: seq<Entry>, date: string): (r: seq<Entry>)
    ensures |r| <= |rows|
    ensures forall e :: e in r <==> e in rows && e.localDate == date
  {
    if rows == [] then []
    else (if rows[0].localDate == date then [rows[0]] else []) + OnDate(rows[1..], date)
  }

  /** The sum of the `qty` column. */
  function SumQty(rows: seq<Entry>): int {
    if rows == [] then 0 else rows[0].qty + SumQty(rows[1..])
  }

  /** SQL's sum of the quantities: NULL over no rows at all. */
  function SqlSum(rows: seq<Entry>): Option<int> {
    if rows == [] then None else Some(SumQty(rows))
  }

  /** The day's grand total: the sum over the day's rows, with NULL turned into 0. */
  function DailyTotal(rows: seq<Entry>, date: string): (r: int)
    ensures r == SumQty(OnDate(rows, date))
  {
    match SqlSum(OnDate(rows, date))
    case None => 0
    case Some(total) => if total == 0 then 0 else total
  }

  /** The date filter comes back empty exactly when no row has that date. */
  lemma NoRowOnDate(rows: seq<Entry>, date: string)
    ensures OnDate(rows, date) == [] <==> forall i :: 0 <= i < |rows| ==> rows[i].localDate != date
  {
    if OnDate(rows, date) != [] {
      assert OnDate(rows, date)[0] in rows;
    } else {
      forall i | 0 <= i < |rows|
        ensures rows[i].localDate != date
      {
        assert rows[i] in rows;
      }
    }
  }

  lemma {:induction false} SumQtyAppend(a: seq<Entry>, b: seq<Entry>)
    ensures SumQty(a + b) == SumQty(a) + SumQty(b)
  {
    if a == [] {
      assert a + b == b;
    } else {
      assert (a + b)[1..] == a[1..] + b;
      SumQtyAppend(a[1..], b);
    }
  }

  /** With every quantity in [1, 10], n rows add up to between n and 10 n. */
  lemma {:induction false} SumQtyBounds(rows: seq<Entry>)
    requires forall i :: 0 <= i < |rows| ==> ValidQty(rows[i].qty)
    ensures |rows| <= SumQty(rows) <= 10 * |rows|
  {
    if rows != [] {
      SumQtyBounds(rows[1..]);
    }
  }

  /**
   * The daily total lies between one and ten per row of the day, and it is 0
   * exactly when no row carries that date.
   */
  lemma DailyTotalSpec(rows: seq<Entry>, date: string)
    requires forall i :: 0 <= i < |rows| ==> WellFormed(rows[i])
    ensures |OnDate(rows, date)| <= DailyTotal(rows, date) <= 10 * |OnDate(rows, date)|
    ensures DailyTotal(rows, date) == 0 <==> forall i :: 0 <= i < |rows| ==> rows[i].localDate != date
  {
    var day := OnDate(rows, date);
    forall i | 0 <= i < |day|
      ensures ValidQty(day[i].qty)
    {
      assert day[i] in rows;
    }
    SumQtyBounds(day);
    if day != [] {
      assert day[0] in rows;
    }
  }

  lemma {:induction false} OnDateAppend(a: seq<Entry>, b: seq<Entry>, date: string)
    ensures OnDate(a + b, date) == OnDate(a, date) + OnDate(b, date)
  {
    if a == [] {
      assert a + b == b;
    } else {
      assert (a + b)[1..] == a[1..] + b;
      OnDateAppend(a[1..], b, date);
    }
  }

  /**
   * Inserting a row adds its quantity to the total of its own date and
   * leaves the total of every other date as it was.
   */
  lemma DailyTotalAppend(rows: seq<Entry>, e: Entry, date: string)
    ensures DailyTotal(rows + [e], date) == DailyTotal(rows, date) + (if e.localDate == date then e.qty else 0)
  {
    OnDateAppend(rows, [e], date);
    SumQtyAppend(OnDate(rows, date), OnDate([e], date));
    assert [e][1..] == [];
  }

  /** The two groupings of the summary page. */
  datatype Grouping = ByDrinkSession | ByPerson

  /** The grouping columns of a group, in the order its results are sorted by. */
  datatype Key = Key(first: string, second: string, third: string)

  /** `(session, drink)` for the drink totals, `(name, drink, session)` for the per-person totals. */
  function GroupKey(g: Grouping, e: Entry): Key {
    match g
    case ByDrinkSession => Key(e.session, e.drink, "")
    case ByPerson => Key(e.name, e.drink, e.session)
  }

  /** The rows of a group. */
  function InGroup(day: seq<Entry>, g: Grouping, k: Key): (r: seq<Entry>)
    ensures forall e :: e in r <==> e in day && GroupKey(g, e) == k
  {
    if day == [] then []
    else (if GroupKey(g, day[0]) == k then [day[0]] else []) + InGroup(day[1..], g, k)
  }

  /** Lexicographic order on keys, each component ordered as SQLite orders TEXT. */
  predicate KeyLess(a: Key, b: Key) {
    || Less(a.first, b.first)
    || (a.first == b.first && Less(a.second, b.second))
    || (a.first == b.first && a.second == b.second && Less(a.third, b.third))
  }

  lemma KeyLessIrreflexive(a: Key)
    ensures !KeyLess(a, a)
  {
    LessIrreflexive(a.first);
    LessIrreflexive(a.second);
    LessIrreflexive(a.third);
  }

  lemma KeyLessTransitive(a: Key, b: Key, c: Key)
    requires KeyLess(a, b) && KeyLess(b, c)
    ensures KeyLess(a, c)
  {
    if Less(a.first, b.first) && Less(b.first, c.first) {
      LessTransitive(a.first, b.first, c.first);
    } else if a.first == b.first == c.first && Less(a.second, b.second) && Less(b.second, c.second) {
      LessTransitive(a.second, b.second, c.second);
    } else if a.first == b.first == c.first && a.second == b.second == c.second {
      LessTransitive(a.third, b.third, c.third);
    }
  }

  lemma KeyLessTotal(a: Key, b: Key)
    ensures KeyLess(a, b) || a == b || KeyLess(b, a)
  {
    LessTotal(a.first, b.first);
    LessTotal(a.second, b.second);
    LessTotal(a.third, b.third);
  }

  /** Strictly increasing keys: sorted and free of duplicates. */
  predicate StrictlySorted(ks: seq<Key>) {
    forall i, j :: 0 <= i < j < |ks| ==> KeyLess(ks[i], ks[j])
  }

  lemma KeyBelowAll(k: Key, ks: seq<Key>)
    requires StrictlySorted(ks) && ks != [] && KeyLess(k, ks[0])
    ensures forall x :: x in ks ==> KeyLess(k, x)
  {
    forall x | x in ks
      ensures KeyLess(k, x)
    {
      if x != ks[0] {
        KeyLessTransitive(k, ks[0], x);
      }
    }
  }

  /** Adds a key to a strictly sorted list at its place, unless it is already there. */
  function InsertKey(k: Key, ks: seq<Key>): (r: seq<Key>)
    requires StrictlySorted(ks)
    ensures StrictlySorted(r)
    ensures forall x :: x in r <==> x == k || x in ks
    ensures |r| <= |ks| + 1
  {
    if ks == [] then [k]
    else if k == ks[0] then ks
    else if KeyLess(k, ks[0]) then
      KeyBelowAll(k, ks);
      [k] + ks
    else
      KeyLessTotal(k, ks[0]);
      var tail := InsertKey(k, ks[1..]);
      assert forall x :: x in tail ==> KeyLess(ks[0], x);
      [ks[0]] + tail
  }

  /** The distinct keys of the rows' groups, in ascending order: what grouping and then sorting by the key lists. */
  function GroupKeys(day: seq<Entry>, g: Grouping): (ks: seq<Key>)
    ensures StrictlySorted(ks)
    ensures forall k :: k in ks <==> InGroup(day, g, k) != []
    ensures |ks| <= |day| && (ks == [] <==> day == [])
  {
    if day == [] then []
    else
      var ks := InsertKey(GroupKey(g, day[0]), GroupKeys(day[1..], g));
      assert forall k :: InGroup(day, g, k) == (if GroupKey(g, day[0]) == k then [day[0]] else []) + InGroup(day[1..], g, k);
      ks
  }

  /** The sum of the group totals of the given keys. */
  function SumGroups(day: seq<Entry>, g: Grouping, ks: seq<Key>): int {
    if ks == [] then 0 else SumQty(InGroup(day, g, ks[0])) + SumGroups(day, g, ks[1..])
  }

  lemma {:induction false} SumGroupsEmpty(g: Grouping, ks: seq<Key>)
    ensures SumGroups([], g, ks) == 0
  {
    if ks != [] {
      SumGroupsEmpty(g, ks[1..]);
    }
  }

  lemma {:induction false} SumGroupsCons(d: Entry, rest: seq<Entry>, g: Grouping, ks: seq<Key>)
    ensures SumGroups([d] + rest, g, ks) == SumGroups([d], g, ks) + SumGroups(rest, g, ks)
  {
    if ks != [] {
      SumGroupsCons(d, rest, g, ks[1..]);
      var k := ks[0];
      assert ([d] + rest)[1..] == rest;
      assert InGroup([d], g, k) == (if GroupKey(g, d) == k then [d] else []) + InGroup([], g, k);
      SumQtyAppend(InGroup([d], g, k), InGroup(rest, g, k));
    }
  }

  /** One row lands in exactly one group among distinct keys, or in none if its key is absent. */
  lemma {:induction false} SumGroupsSingle(d: Entry, g: Grouping, ks: seq<Key>)
    requires StrictlySorted(ks)
    ensures SumGroups([d], g, ks) == if GroupKey(g, d) in ks then d.qty else 0
  {
    if ks != [] {
      SumGroupsSingle(d, g, ks[1..]);
      assert InGroup([d], g, ks[0]) == (if GroupKey(g, d) == ks[0] then [d] else []) + InGroup([], g, ks[0]);
      assert [d][1..] == [] && [d] + [] == [d];
      assert SumQty([d]) == d.qty;
      if GroupKey(g, d) == ks[0] {
        KeyLessIrreflexive(ks[0]);
        assert ks[0] !in ks[1..];
      } else {
        assert GroupKey(g, d) in ks <==> GroupKey(g, d) in ks[1..];
      }
    }
  }

  /**
   * Groups partition the rows: over distinct keys that cover every row's
   * key, the group totals add up to the total of all rows.
   */
  lemma {:induction false} GroupsPartition(day: seq<Entry>, g: Grouping, ks: seq<Key>)
    requires StrictlySorted(ks)
    requires forall e :: e in day ==> GroupKey(g, e) in ks
    ensures SumGroups(day, g, ks) == SumQty(day)
  {
    if day == [] {
      SumGroupsEmpty(g, ks);
    } else {
      assert day == [day[0]] + day[1..];
      SumGroupsCons(day[0], day[1..], g, ks);
      SumGroupsSingle(day[0], g, ks);
      GroupsPartition(day[1..], g, ks);
    }
  }

  /** A row of the drink totals: a drink, a session and their summed quantity. */
  datatype DrinkTotal = DrinkTotal(drink: string, session: string, total: int)

  /** A row of the per-person totals: a name, a drink, a session and their summed quantity. */
  datatype PersonTotal = PersonTotal(name: string, drink: string, session: string, total: int)

  function DrinkRows(day: seq<Entry>, ks: seq<Key>): seq<DrinkTotal> {
    seq(|ks|, i requires 0 <= i < |ks| => DrinkTotal(ks[i].second, ks[i].first, SumQty(InGroup(day, ByDrinkSession, ks[i]))))
  }

  function PersonRows(day: seq<Entry>, ks: seq<Key>): seq<PersonTotal> {
    seq(|ks|, i requires 0 <= i < |ks| => PersonTotal(ks[i].first, ks[i].second, ks[i].third, SumQty(InGroup(day, ByPerson, ks[i]))))
  }

  /** The `grouped` result of the summary for `date`. */
  function Grouped(rows: seq<Entry>, date: string): (r: seq<DrinkTotal>)
    ensures |r| <= |OnDate(rows, date)|
    ensures r == [] <==> forall i :: 0 <= i < |rows| ==> rows[i].localDate != date
  {
    var day := OnDate(rows, date);
    NoRowOnDate(rows, date);
    DrinkRows(day, GroupKeys(day, ByDrinkSession))
  }

  /** The `per_person` result of the summary for `date`. */
  function PerPerson(rows: seq<Entry>, date: string): (r: seq<PersonTotal>)
    ensures |r| <= |OnDate(rows, date)|
    ensures r == [] <==> forall i :: 0 <= i < |rows| ==> rows[i].localDate != date
  {
    var day := OnDate(rows, date);
    NoRowOnDate(rows, date);
    PersonRows(day, GroupKeys(day, ByPerson))
  }

  function SumDrinkTotals(ts: seq<DrinkTotal>): int {
    if ts == [] then 0 else ts[0].total + SumDrinkTotals(ts[1..])
  }

  function SumPersonTotals(ts: seq<PersonTotal>): int {
    if ts == [] then 0 else ts[0].total + SumPersonTotals(ts[1..])
  }

  lemma {:induction false} SumDrinkRows(day: seq<Entry>, ks: seq<Key>)
    ensures SumDrinkTotals(DrinkRows(day, ks)) == SumGroups(day, ByDrinkSession, ks)
  {
    if ks != [] {
      assert DrinkRows(day, ks)[1..] == DrinkRows(day, ks[1..]);
      SumDrinkRows(day, ks[1..]);
    }
  }

  lemma {:induction false} SumPersonRows(day: seq<Entry>, ks: seq<Key>)
    ensures SumPersonTotals(PersonRows(day, ks)) == SumGroups(day, ByPerson, ks)
  {
    if ks != [] {
      assert PersonRows(day, ks)[1..] == PersonRows(day, ks[1..]);
      SumPersonRows(day, ks[1..]);
    }
  }

  /** Every row of a group is counted, so with quantities of at least 1 no listed group totals 0. */
  lemma GroupTotalPositive(day: seq<Entry>, g: Grouping, k: Key)
    requires forall i :: 0 <= i < |day| ==> WellFormed(day[i])
    requires InGroup(day, g, k) != []
    ensures SumQty(InGroup(day, g, k)) >= 1
  {
    var grp := InGroup(day, g, k);
    forall i | 0 <= i < |grp|
      ensures ValidQty(grp[i].qty)
    {
      assert grp[i] in day;
    }
    SumQtyBounds(grp);
  }

  lemma DayWellFormed(rows: seq<Entry>, date: string)
    requires forall i :: 0 <= i < |rows| ==> WellFormed(rows[i])
    ensures forall i :: 0 <= i < |OnDate(rows, date)| ==> WellFormed(OnDate(rows, date)[i])
  {
    var day := OnDate(rows, date);
    forall i | 0 <= i < |day|
      ensures WellFormed(day[i])
    {
      assert day[i] in rows;
    }
  }

  /** Every row's key is among the group keys. */
  lemma KeysCoverRows(day: seq<Entry>, g: Grouping)
    ensures forall e :: e in day ==> GroupKey(g, e) in GroupKeys(day, g)
  {
    forall e | e in day
      ensures GroupKey(g, e) in GroupKeys(day, g)
    {
      assert e in InGroup(day, g, GroupKey(g, e));
    }
  }

  /** Each drink-total row is the sum of the quantities of that drink and session on that day, at least 1. */
  lemma GroupedTotals(rows: seq<Entry>, date: string)
    requires forall i :: 0 <= i < |rows| ==> WellFormed(rows[i])
    ensures var r := Grouped(rows, date);
      forall i :: 0 <= i < |r| ==>
        var grp := InGroup(OnDate(rows, date), ByDrinkSession, Key(r[i].session, r[i].drink, ""));
        grp != [] && r[i].total == SumQty(grp) && r[i].total >= 1
  {
    var day := OnDate(rows, date);
    var ks := GroupKeys(day, ByDrinkSession);
    var r := Grouped(rows, date);
    DayWellFormed(rows, date);
    forall i | 0 <= i < |r|
      ensures InGroup(day, ByDrinkSession, Key(r[i].session, r[i].drink, "")) != []
      ensures r[i].total == SumQty(InGroup(day, ByDrinkSession, Key(r[i].session, r[i].drink, "")))
      ensures r[i].total >= 1
    {
      assert ks[i] in ks;
      var e := InGroup(day, ByDrinkSession, ks[i])[0];
      assert e in InGroup(day, ByDrinkSession, ks[i]);
      assert Key(r[i].session, r[i].drink, "") == ks[i];
      GroupTotalPositive(day, ByDrinkSession, ks[i]);
    }
  }

  /** Every (drink, session) drunk on that day has its row. */
  lemma GroupedComplete(rows: seq<Entry>, date: string)
    ensures var r := Grouped(rows, date);
      forall e :: e in rows && e.localDate == date ==>
        exists i :: 0 <= i < |r| && r[i].drink == e.drink && r[i].session == e.session
  {
    var day := OnDate(rows, date);
    var ks := GroupKeys(day, ByDrinkSession);
    var r := Grouped(rows, date);
    KeysCoverRows(day, ByDrinkSession);
    forall e | e in rows && e.localDate == date
      ensures exists i :: 0 <= i < |r| && r[i].drink == e.drink && r[i].session == e.session
    {
      var i :| 0 <= i < |ks| && ks[i] == GroupKey(ByDrinkSession, e);
      assert r[i].drink == e.drink && r[i].session == e.session;
    }
  }

  /** Sorted by session, then drink, and no (drink, session) is listed twice. */
  lemma GroupedOrdered(rows: seq<Entry>, date: string)
    ensures var r := Grouped(rows, date);
      forall i, j :: 0 <= i < j < |r| ==>
        || Less(r[i].session, r[j].session)
        || (r[i].session == r[j].session && Less(r[i].drink, r[j].drink))
  {
    var day := OnDate(rows, date);
    var ks := GroupKeys(day, ByDrinkSession);
    var r := Grouped(rows, date);
    forall i, j | 0 <= i < j < |r|
      ensures || Less(r[i].session, r[j].session)
              || (r[i].session == r[j].session && Less(r[i].drink, r[j].drink))
    {
      assert KeyLess(ks[i], ks[j]);
      assert ks[i].third == "" by {
        var e := InGroup(day, ByDrinkSession, ks[i])[0];
        assert e in InGroup(day, ByDrinkSession, ks[i]);
      }
      LessIrreflexive("");
    }
  }

  /** The drink totals add up to the daily total. */
  lemma GroupedAddsUp(rows: seq<Entry>, date: string)
    ensures SumDrinkTotals(Grouped(rows, date)) == DailyTotal(rows, date)
  {
    var day := OnDate(rows, date);
    var ks := GroupKeys(day, ByDrinkSession);
    SumDrinkRows(day, ks);
    KeysCoverRows(day, ByDrinkSession);
    GroupsPartition(day, ByDrinkSession, ks);
  }

  /** Each per-person row is the sum of that person's quantities of that drink and session on that day, at least 1. */
  lemma PerPersonTotals(rows: seq<Entry>, date: string)
    requires forall i :: 0 <= i < |rows| ==> WellFormed(rows[i])
    ensures var r := PerPerson(rows, date);
      forall i :: 0 <= i < |r| ==>
        var grp := InGroup(OnDate(rows, date), ByPerson, Key(r[i].name, r[i].drink, r[i].session));
        grp != [] && r[i].total == SumQty(grp) && r[i].total >= 1
  {
    var day := OnDate(rows, date);
    var ks := GroupKeys(day, ByPerson);
    var r := PerPerson(rows, date);
    DayWellFormed(rows, date);
    forall i | 0 <= i < |r|
      ensures InGroup(day, ByPerson, Key(r[i].name, r[i].drink, r[i].session)) != []
      ensures r[i].total == SumQty(InGroup(day, ByPerson, Key(r[i].name, r[i].drink, r[i].session)))
      ensures r[i].total >= 1
    {
      assert ks[i] in ks;
      assert Key(r[i].name, r[i].drink, r[i].session) == ks[i];
      GroupTotalPositive(day, ByPerson, ks[i]);
    }
  }

  /** Every (name, drink, session) of that day has its row. */
  lemma PerPersonComplete(rows: seq<Entry>, date: string)
    ensures var r := PerPerson(rows, date);
      forall e :: e in rows && e.localDate == date ==>
        exists i :: 0 <= i < |r| && r[i].name == e.name && r[i].drink == e.drink && r[i].session == e.session
  {
    var day := OnDate(rows, date);
    var ks := GroupKeys(day, ByPerson);
    var r := PerPerson(rows, date);
    KeysCoverRows(day, ByPerson);
    forall e | e in rows && e.localDate == date
      ensures exists i :: 0 <= i < |r| && r[i].name == e.name && r[i].drink == e.drink && r[i].session == e.session
    {
      var i :| 0 <= i < |ks| && ks[i] == GroupKey(ByPerson, e);
      assert r[i].name == e.name && r[i].drink == e.drink && r[i].session == e.session;
    }
  }

  /** Sorted by name: names never decrease down the list, and no (name, drink, session) is listed twice. */
  lemma PerPersonOrdered(rows: seq<Entry>, date: string)
    ensures var r := PerPerson(rows, date);
      forall i, j :: 0 <= i < j < |r| ==>
        && LessEq(r[i].name, r[j].name)
        && (r[i].name, r[i].drink, r[i].session) != (r[j].name, r[j].drink, r[j].session)
  {
    var day := OnDate(rows, date);
    var ks := GroupKeys(day, ByPerson);
    var r := PerPerson(rows, date);
    forall i, j | 0 <= i < j < |r|
      ensures LessEq(r[i].name, r[j].name)
      ensures (r[i].name, r[i].drink, r[i].session) != (r[j].name, r[j].drink, r[j].session)
    {
      assert KeyLess(ks[i], ks[j]);
      KeyLessIrreflexive(ks[i]);
    }
  }

  /** The per-person totals add up to the daily total. */
  lemma PerPersonAddsUp(rows: seq<Entry>, date: string)
    ensures SumPersonTotals(PerPerson(rows, date)) == DailyTotal(rows, date)
  {
    var day := OnDate(rows, date);
    var ks := GroupKeys(day, ByPerson);
    SumPersonRows(day, ks);
    KeysCoverRows(day, ByPerson);
    GroupsPartition(day, ByPerson, ks);
  }

  /**
   * Two entries of the same person, drink and session on the same day make
   * one drink-total row and one per-person row, each carrying the sum of
   * their quantities (for instance 2 + 3 cups of tea in the morning give 5).
   */
  lemma SameGroupAddsUp(a: Entry, b: Entry, date: string)
    requires a.localDate == date && b.localDate == date
    requires a.name == b.name && a.drink == b.drink && a.session == b.session
    ensures Grouped([a, b], date) == [DrinkTotal(a.drink, a.session, a.qty + b.qty)]
    ensures PerPerson([a, b], date) == [PersonTotal(a.name, a.drink, a.session, a.qty + b.qty)]
    ensures DailyTotal([a, b], date) == a.qty + b.qty
  {
    var rows := [a, b];
    assert rows[1..] == [b] && [b][1..] == [];
    assert OnDate([b], date) == [b];
    assert OnDate(rows, date) == rows;
    assert SumQty([b]) == b.qty;
    assert SumQty(rows) == a.qty + b.qty;
    SingleGroup(rows, ByDrinkSession);
    SingleGroup(rows, ByPerson);
  }

  lemma SingleGroup(rows: seq<Entry>, g: Grouping)
    requires |rows| == 2 && GroupKey(g, rows[0]) == GroupKey(g, rows[1])
    ensures GroupKeys(rows, g) == [GroupKey(g, rows[0])]
    ensures InGroup(rows, g, GroupKey(g, rows[0])) == rows
  {
    var k := GroupKey(g, rows[0]);
    assert rows[1..][1..] == [];
    assert GroupKeys(rows[1..], g) == [k];
    assert InGroup(rows[1..], g, k) == rows[1..];
    assert rows == [rows[0]] + rows[1..];
  }

  /** A day without entries has a total of 0 and no group rows (an empty result, not an error). */
  lemma EmptyDay(rows: seq<Entry>, date: string)
    requires forall e :: e in rows ==> e.localDate != date
    ensures DailyTotal(rows, date) == 0 && Grouped(rows, date) == [] && PerPerson(rows, date) == []
  {
    NoneOnDate(rows, date);
  }

  lemma {:induction false} NoneOnDate(rows: seq<Entry>, date: string)
    requires forall e :: e in rows ==> e.localDate != date
    ensures OnDate(rows, date) == []
  {
    if rows != [] {
      NoneOnDate(rows[1..], date);
    }
  }
}
