/**
 * The application as a whole: the `entries` table held in memory together
 * with its AUTOINCREMENT counter, and the three handlers that touch it.
 * Clock readings (the UTC timestamp, today's local date) are passed in by
 * the caller; the admin key is fixed when the store is created.
 */
module Store {
  import opened Requests
  import opened Delimited
  import opened Entries
  import Submission
  import Aggregates
  import Export

  /** What the summary template receives. */
  datatype SummaryPage = SummaryPage(
    date: string,
    grouped: seq<Aggregates.DrinkTotal>,
    perPerson: seq<Aggregates.PersonTotal>,
    totalToday: int
  )

  /**
   * The day the summary shows: a non-empty `date` parameter is taken as
   * given, and an absent or empty one means today, so the day is never empty
   * unless today is.
   */
  function SummaryDate(args: Params, today: string): (r: string)
    ensures "date" in args && args["date"] != "" ==> r == args["date"]
    ensures r != today ==> "date" in args && r == args["date"]
    ensures r == "" ==> today == ""
  {
    if "date" in args && args["date"] != "" then args["date"] else today
  }

  /** The page for one day of the table. */
  function Page(rows: seq<Entry>, date: string): SummaryPage {
    SummaryPage(date, Aggregates.Grouped(rows, date), Aggregates.PerPerson(rows, date), Aggregates.DailyTotal(rows, date))
  }

  /** The row the submit handler inserts for a validated form. */
  function NewRow(id: int, f: Submission.Fields, tsUtc: string, localDate: string): Entry {
    Entry(id, f.name, f.drink, f.session, f.qty, tsUtc, localDate)
  }

  /** A row built from accepted fields satisfies the table's column constraints. */
  lemma NewRowWellFormed(id: int, f: Submission.Fields, tsUtc: string, localDate: string)
    requires Submission.Acceptable(f) && id >= 1
    ensures WellFormed(NewRow(id, f, tsUtc, localDate))
  {
  }

  class EntryStore {
    /** The table's rows in insertion (and id) order. */
    var rows: seq<Entry>
    /** The id AUTOINCREMENT hands out next. */
    var nextId: int
    const adminKey: string

    ghost predicate Valid()
      reads this
    {
      TableInvariant(rows, nextId)
    }

    /** `init_db` on a fresh database: an empty table whose first id will be 1. */
    constructor(adminKey: string)
      ensures Valid()
      ensures rows == [] && nextId == 1 && this.adminKey == adminKey
    {
      rows := [];
      nextId := 1;
      this.adminKey := adminKey;
    }

    /**
     * `POST /submit`: a rejected form answers 400 and leaves the table alone;
     * an accepted one is inserted with the next id and the given clock
     * readings (the handler then redirects to the thank-you page).
     */
    method Submit(form: Params, tsUtc: string, localDate: string) returns (r: Reply<Entry>)
      requires Valid()
      modifies this
      ensures Valid()
      ensures r.Fail? <==> Submission.Validate(form).Fail?
      ensures r.Fail? ==> && r.status == BadRequest
                          && r.message == Submission.Validate(form).message
                          && rows == old(rows) && nextId == old(nextId)
      ensures r.Ok? ==> && r.value == NewRow(old(nextId), Submission.Validate(form).value, tsUtc, localDate)
                        && rows == old(rows) + [r.value]
                        && nextId == old(nextId) + 1
      ensures r.Ok? ==> forall e :: e in old(rows) ==> e.id < r.value.id
    {
      var v := Submission.Validate(form);
      if v.Fail? {
        r := Fail(v.status, v.message);
      } else {
        var e := Insert(v.value, tsUtc, localDate);
        r := Ok(e);
      }
    }

    /**
     * The insert: appends the row with the next id, which is
     * larger than every id already in the table.
     */
    method Insert(f: Submission.Fields, tsUtc: string, localDate: string) returns (e: Entry)
      requires Valid() && Submission.Acceptable(f)
      modifies this
      ensures Valid()
      ensures e == NewRow(old(nextId), f, tsUtc, localDate)
      ensures rows == old(rows) + [e] && nextId == old(nextId) + 1
      ensures forall x :: x in old(rows) ==> x.id < e.id
    {
      e := NewRow(nextId, f, tsUtc, localDate);
      NewRowWellFormed(nextId, f, tsUtc, localDate);
      InvariantAppend(rows, nextId, e);
      rows := rows + [e];
      nextId := nextId + 1;
    }

    /** `GET /summary`: the admin gate, then the three queries for the requested day. */
    method Summary(args: Params, today: string) returns (r: Reply<SummaryPage>)
      ensures RequireAdmin(args, adminKey).Fail? ==> r == Fail(Forbidden, "")
      ensures RequireAdmin(args, adminKey).Ok? ==> r == Ok(Page(rows, SummaryDate(args, today)))
    {
      var gate := RequireAdmin(args, adminKey);
      if gate.Fail? {
        return Fail(gate.status, gate.message);
      }
      r := Ok(Page(rows, SummaryDate(args, today)));
    }

    /**
     * `GET /export.csv`: the admin gate, then the rows of the date range in
     * query order, written one line each below the header.
     */
    method ExportCsv(args: Params) returns (r: Reply<string>)
      ensures RequireAdmin(args, adminKey).Fail? ==> r == Fail(Forbidden, "")
      ensures RequireAdmin(args, adminKey).Ok? ==>
        r == Ok(Export.CsvText(Export.ExportRows(rows, Get(args, "from", Export.DefaultFrom), Get(args, "to", Export.DefaultTo))))
    {
      var gate := RequireAdmin(args, adminKey);
      if gate.Fail? {
        return Fail(gate.status, gate.message);
      }
      var from := Get(args, "from", Export.DefaultFrom);
      var to := Get(args, "to", Export.DefaultTo);
      var text := WriteCsv(Export.ExportRows(rows, from, to));
      r := Ok(text);
    }
  }

  /**
   * The CSV writer: the header line, then one line per row in the given
   * order, joined with newlines.
   */
  method WriteCsv(selected: seq<Entry>) returns (text: string)
    ensures text == Export.CsvText(selected)
  {
    var lines := [Export.HeaderText];
    for i := 0 to |selected|
      invariant lines == Export.CsvLines(selected[..i])
    {
      Export.CsvLinesAppend(selected[..i], selected[i]);
      assert selected[..i + 1] == selected[..i] + [selected[i]];
      lines := lines + [Export.CsvLine(selected[i])];
    }
    assert selected[..|selected|] == selected;
    text := Join(lines, '\n');
  }
}
