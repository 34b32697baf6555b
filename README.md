# Drink tracker: a verified model of the Flask app's core

The drink tracker is a small office web application. People post a form
with their name, a drink, a session (`AM` or `PM`) and a quantity; each
accepted post becomes one row of the SQLite table `entries`. An
administrator, identified by a shared key in the query string, can view a
daily summary (totals per drink and session, per person, and the day's
grand total) and export a date range of rows as CSV.

This project models that core in Dafny:

- `Store.EntryStore` is the table held in memory. It keeps the rows in
  insertion order and the AUTOINCREMENT counter. It offers the three
  handlers that touch the table: `Submit`, `Summary` and `ExportCsv`.
- `Submission` holds the form validation of `/submit`: what is stripped,
  which check comes first, and the two 400 messages.
- `Aggregates` holds the three summary queries as functions over the rows
  of one local date: quantity sums per drink and session (listed by session,
  then drink), per person, drink and session (listed by name), and the day's
  grand total, which is 0 for a day without rows.
- `Export` holds the export query and the CSV text. The query keeps the rows
  whose local date lies between the two bounds, both included, sorted by
  local date and then id. The text is a header line plus one comma-joined
  line per row, with the lines joined by newlines.
- `Requests` holds the admin gate (`require_admin`), query strings and
  forms as maps, and replies as either a value or an HTTP error status.
- `Strings`, `Numerals` and `Delimited` model the Python and SQLite
  primitives the handlers rely on:
  - `Strings`: `str.strip()`, and the order SQLite uses for TEXT values
    (BINARY collation, which compares code points one by one).
  - `Numerals`: `int()` on the stripped quantity, and `str()` on the integer
    columns.
  - `Delimited`: `sep.join(...)`, with splitting as its inverse.
- `Entries` defines the row type and the invariant the table keeps:
  - every row is well formed (stripped non-empty name and drink, session AM
    or PM, quantity 1 to 10);
  - ids are positive and strictly increasing;
  - every id is below the counter.

The clock readings are parameters of `Submit` and `Summary`. These are the
UTC timestamp and the local date of an insert, and "today" in UTC+05:30
for the summary. The admin key is a parameter of the store's constructor.

Three behaviours of the code are easy to miss:

- The summary falls back to today both when `date` is absent and when it is
  empty (`Store.SummaryDate`). The export falls back to its default bounds
  only when `from` or `to` is absent, so an empty `from=` or `to=` is kept as
  the empty string and compared as text.
- One might expect an export of N rows to have N + 1 lines. The code does
  not quote or escape, and stripping removes only surrounding whitespace. A
  name or drink with an interior line break therefore passes validation and
  adds lines. `Export.CsvText` states the exact condition. A comma inside a
  text column likewise adds columns (`Export.CsvLine` states when a line
  splits back into its seven columns).
- The per-person list is ordered by name only. Rows with the same name come
  in an order SQLite does not promise. The model lists them by drink, then
  session, and proves only what the query promises: names never decrease,
  and no (name, drink, session) appears twice.

## Model

| member | source | states |
|---|---|---|
| Strings.Strip | flask/app.py:52-55 | the stripped field starts and ends with a non-whitespace character (or is empty) and is no longer than the raw field |
| Strings.StripUnique | flask/app.py:52-55 | `strip()` removes exactly the whitespace run at each end: any bordered substring that starts and ends with non-whitespace is the result |
| Strings.StripIdempotent | flask/app.py:52-55 | stripping a stripped field changes nothing |
| Strings.StripStripped | flask/app.py:55 | a value without surrounding whitespace, such as the default quantity "1", is left unchanged |
| Strings.LessTotal | flask/app.py:93 | SQLite's TEXT order is total: two strings are ordered one way, the other way, or equal |
| Strings.LessTransitive | flask/app.py:93 | SQLite's TEXT order is transitive |
| Strings.LessIrreflexive | flask/app.py:114 | no string sorts before itself |
| Strings.LessAsymmetric | flask/app.py:114 | two strings never sort before each other |
| Numerals.NatToString | flask/app.py:121 | `str(n)` is non-empty decimal digits without a leading zero whose value is `n` |
| Numerals.IntToString | flask/app.py:121 | `int(str(i)) == i` for every integer id and quantity written to the CSV |
| Numerals.IntToStringCharacters | flask/app.py:121 | a rendered integer holds only digits and '-', so never a comma or a line break |
| Numerals.ParseInt | flask/app.py:60 | the text parses exactly when it is one or more digits after at most one leading sign; the value is the digits' decimal value, negated after a minus sign |
| Delimited.Split | flask/app.py:119-123 | splitting always yields at least one piece |
| Delimited.Join | flask/app.py:119-123 | the joined text is as long as the parts together plus one separator between each two |
| Delimited.SplitJoin | flask/app.py:119-123 | splitting at the separator undoes `sep.join(parts)` when no part contains the separator |
| Delimited.SplitCount | flask/app.py:123 | splitting yields one more piece than there are separators |
| Delimited.CountJoin | flask/app.py:119-123 | `sep.join` adds one separator between each two parts and nothing else |
| Delimited.CountAllZero | flask/app.py:121 | no part contains a character exactly when the total count of that character over the parts is 0 |
| Delimited.SplitPiece | flask/app.py:121 | a part free of the separator is split off exactly as written |
| Entries.InvariantUniqueIds | flask/app.py:29 | under the table invariant no two rows share an id (PRIMARY KEY) |
| Entries.InvariantAppend | flask/app.py:29-35 | appending a well-formed row that takes the next id keeps the table invariant, with the counter moved past it |
| Requests.Get | flask/app.py:52-55 | a present field yields its value, an absent one the default |
| Requests.RequireAdmin | flask/app.py:81-84 | access is granted exactly when the `key` argument equals the admin key (a missing key counts as ""), else 403 |
| Submission.Validate | flask/app.py:52-64 | a failure is a 400 with one of the two messages; an accepted submission has a non-empty stripped name and drink, session AM or PM, and quantity in 1..10 |
| Submission.Field | flask/app.py:52-55 | the field has no surrounding whitespace; a value already stripped is kept as sent; an absent field with a stripped default yields the default |
| Submission.FieldsPresent | flask/app.py:57 | the first check passes only when name, drink and session were all sent |
| Submission.QuantityAccepted | flask/app.py:55-64 | a form without a quantity always passes the quantity check |
| Submission.RejectsMissingFields | flask/app.py:57-58 | an empty name or drink, or a session other than AM/PM, gets 400 "Missing or invalid fields.", whatever the quantity |
| Submission.RejectsBadQuantity | flask/app.py:59-64 | with valid fields, a quantity that is not an integer in 1..10 gets 400 "Quantity must be 1-10." |
| Submission.AcceptedValues | flask/app.py:52-60 | an accepted submission holds the name, drink and session as sent with surrounding whitespace removed, and the quantity read from the stripped field (default "1") |
| Submission.AcceptsValid | flask/app.py:52-64 | when both checks pass, the result holds the stripped name, drink and session and the parsed quantity |
| Submission.ValidateAccepts | flask/app.py:57-64 | validation succeeds if and only if both checks pass |
| Submission.MissingQuantityIsOne | flask/app.py:55-60 | leaving the quantity out of an otherwise valid form records one drink |
| Submission.DefaultQuantity | flask/app.py:55-60 | a missing quantity field parses as 1 |
| Submission.QuantityBoundaries | flask/app.py:60-62 | "0" and "11" parse but fall outside 1..10, "abc", "" and "+" do not parse, "1" and "10" parse to the bounds, "+7" to 7 and "-05" to -5 |
| Aggregates.OnDate | flask/app.py:101 | keeps exactly the rows whose local date equals the requested one, in table order |
| Aggregates.NoRowOnDate | flask/app.py:93-101 | a day has no rows exactly when no row of the table carries that date |
| Aggregates.DailyTotal | flask/app.py:100-103 | the grand total is the quantity sum of the day's rows |
| Aggregates.SumQtyAppend | flask/app.py:100-103 | the quantity sum of two row lists put together is the sum of their sums |
| Aggregates.SumQtyBounds | flask/app.py:100-103 | n rows with quantities in 1..10 sum to between n and 10n |
| Aggregates.DailyTotalSpec | flask/app.py:100-103 | the grand total lies between the day's row count and ten times it, and is 0 exactly when no row has that date |
| Aggregates.OnDateAppend | flask/app.py:101 | filtering by date distributes over appending rows |
| Aggregates.DailyTotalAppend | flask/app.py:70-74 | inserting a row adds its quantity to its own date's total and leaves every other date's total unchanged |
| Aggregates.InGroup | flask/app.py:93 | a group holds exactly the day's rows with that key |
| Aggregates.InsertKey | flask/app.py:93 | adding a key to a strictly sorted key list keeps it strictly sorted and adds exactly that key |
| Aggregates.GroupKeys | flask/app.py:93 | grouping lists each key of the day exactly once, in strictly ascending order |
| Aggregates.KeyLessTotal | flask/app.py:93 | any two group keys are ordered one way, the other way, or equal |
| Aggregates.KeyLessTransitive | flask/app.py:93 | the sort order on group keys is transitive |
| Aggregates.GroupsPartition | flask/app.py:93 | over distinct keys covering every row, the group sums add up to the sum of all rows |
| Aggregates.GroupTotalPositive | flask/app.py:93 | every listed group has a total of at least 1 |
| Aggregates.KeysCoverRows | flask/app.py:93 | every row's group key is among the listed keys |
| Aggregates.GroupedTotals | flask/app.py:92-95 | each (drink, session) row carries the sum of that day's quantities for that drink and session, at least 1 |
| Aggregates.GroupedComplete | flask/app.py:92-95 | every (drink, session) drunk that day has its row |
| Aggregates.GroupedOrdered | flask/app.py:92-95 | rows are sorted by session, then drink, with no pair listed twice |
| Aggregates.Grouped | flask/app.py:92-95 | there are no more drink rows than rows of the day, and none exactly when no row has that date |
| Aggregates.GroupedAddsUp | flask/app.py:92-103 | the drink totals add up to the day's grand total |
| Aggregates.PerPersonTotals | flask/app.py:96-99 | each (name, drink, session) row carries that person's sum for that drink and session that day, at least 1 |
| Aggregates.PerPersonComplete | flask/app.py:96-99 | every (name, drink, session) of the day has its row |
| Aggregates.PerPersonOrdered | flask/app.py:96-99 | names never decrease down the list, and no (name, drink, session) appears twice |
| Aggregates.PerPerson | flask/app.py:96-99 | there are no more per-person rows than rows of the day, and none exactly when no row has that date |
| Aggregates.PerPersonAddsUp | flask/app.py:96-103 | the per-person totals add up to the day's grand total |
| Aggregates.SameGroupAddsUp | flask/app.py:92-103 | two entries of one person, drink and session on one day yield a single row in each list and a grand total that are all the sum of the two quantities |
| Aggregates.EmptyDay | flask/app.py:92-103 | a day without entries has grand total 0 and empty grouped lists |
| Export.Between | flask/app.py:110-116 | the range filter keeps each row whose date lies in the range, bounds included, as often as it occurs in the table, and no other row |
| Export.InRange | flask/app.py:114 | a row is in range only when its date lies between the bounds, which requires `from` to sort no later than `to` |
| Export.NotAfterTotal | flask/app.py:114 | any two rows can be ordered by (local_date, id) one way or the other |
| Export.NotAfterTransitive | flask/app.py:114 | the (local_date, id) order is transitive |
| Export.NotAfterAntisymmetric | flask/app.py:114 | two rows that may each come first share date and id |
| Export.InsertRow | flask/app.py:114 | inserting into a (local_date, id)-ordered list keeps it ordered and adds exactly that row |
| Export.SortRows | flask/app.py:114 | the sort yields an ordered permutation of its input |
| Export.ExportRows | flask/app.py:113-116 | the export holds exactly the rows in range, ordered by local_date then id |
| Export.OrderedUnique | flask/app.py:114 | with unique ids, two ordered arrangements of the same rows are equal |
| Export.ExportRowsSpec | flask/app.py:113-116 | any arrangement the query may return (the rows in range, ordered by local_date then id) is exactly the modelled export; consecutive rows strictly increase in (local_date, id) |
| Export.SubMultisetUnique | flask/app.py:29 | rows drawn from the table have unique ids |
| Export.SameIdSameRow | flask/app.py:29 | two table rows with the same id are the same row |
| Export.MultiplicityAtMostOne | flask/app.py:29 | no row occurs twice in the table |
| Export.LastIsNew | flask/app.py:29 | the most recently inserted row occurs nowhere earlier in the table |
| Export.Columns | flask/app.py:121 | a data line has the seven columns of the header |
| Export.CsvLines | flask/app.py:118-121 | the header line first, then exactly one line per exported row, in export order |
| Export.CsvLinesAppend | flask/app.py:120-121 | each further row appends its line at the end |
| Export.HeaderLine | flask/app.py:118-119 | the header line is `",".join(header)` over the seven column names |
| Export.HeaderColumns | flask/app.py:118-119 | the header line splits back into the seven column names |
| Export.HeaderOneLine | flask/app.py:119 | the header line holds no line break |
| Export.ColumnsFree | flask/app.py:121 | a comma or line break occurs in a row's columns exactly when it occurs in one of its text columns |
| Export.CsvLine | flask/app.py:121 | a data line holds a line break exactly when one of its row's text columns does; with no comma in its text columns it splits back into the row's seven columns |
| Export.CsvLinesFree | flask/app.py:119-121 | no line holds a line break exactly when no exported text column does |
| Export.CsvText | flask/app.py:119-123 | the text of N rows splits into at least N + 1 lines, exactly N + 1 if and only if no text column contains a line break, and then into the header and row lines themselves |
| Store.NewRowWellFormed | flask/app.py:57-72 | a row built from accepted fields satisfies the table's column constraints |
| Store.SummaryDate | flask/app.py:89 | a non-empty `date` is taken as given; otherwise the day is today; so it is empty only when today is |
| Store.EntryStore.constructor | flask/app.py:25-38 | a new store has an empty table whose first id will be 1, and the given admin key |
| Store.EntryStore.Insert | flask/app.py:69-74 | the row is appended with the next id, which is larger than every existing id; the counter advances; the table invariant is kept |
| Store.EntryStore.Submit | flask/app.py:50-75 | a rejected form answers Validate's 400 and leaves the table unchanged; an accepted one appends exactly one row with Validate's fields, the next id and the given clock readings; the table invariant is kept |
| Store.EntryStore.Summary | flask/app.py:86-105 | without the admin key, 403; otherwise the drink totals, per-person totals and grand total of the requested day (an absent or empty `date` means today) |
| Store.EntryStore.ExportCsv | flask/app.py:107-126 | without the admin key, 403; otherwise the CSV text of the rows in [from, to] (defaults 1970-01-01 and 2100-01-01) in (local_date, id) order, built line by line |
| Store.WriteCsv | flask/app.py:118-123 | the text written line by line is the CSV text of the rows: header first, then one line per row in order |

## Left out

- The web layer is not modelled: routing, the `GET /` form page, the
  thank-you page, template rendering, response headers (`text/csv`,
  `Content-Disposition`) and the redirect after a successful submit. `Submit`
  returns the inserted row where the handler redirects.
- The SQLite connection lifecycle is not modelled: `get_db`, `close_db`,
  `init_db` beyond starting from an empty table, and commits. Each handler
  runs as one atomic step on the in-memory table. Concurrent requests are
  not modelled.
- Clock reads (`datetime.now` in UTC and UTC+05:30) are not modelled; the
  values are parameters. Nothing constrains their format, just as the table
  does not.
- Configuration from the environment (`ADMIN_KEY` with its default
  `changeme`, `PORT`, the database path) is not modelled. The admin key is a
  constructor parameter.
- The fixed lists of names and drinks shown on the form page are not
  modelled. The submit handler does not check against them.
- Submission.Quantity: `int()` is modelled as an optional sign followed by
  ASCII digits. Python also accepts underscores between digits (`1_0`) and
  non-ASCII decimal digits; those forms are rejected here. Python 3.11 and
  later refuse `int()` on text of more than 4300 digits, which then gets the
  quantity 400; the model has no such limit and reads it as its value (for
  4300 zeros followed by "5", the quantity 5).
- Form and query parameters are maps holding one value per field. For a
  repeated field Flask's `.get` takes the first value.
- Aggregates.PerPerson: rows with the same name are listed by drink, then
  session. SQLite leaves that order unspecified, so
  Aggregates.PerPersonOrdered promises only the order by name.
- Numbers are unbounded integers. SQLite's 64-bit id limit is never reached
  by the counter here.
