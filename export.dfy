/**
 * The CSV export. The query takes every row whose local date lies between
 * the two bounds, both included, sorted by local date and then id, with the
 * seven columns id, local_date, ts_utc, name, drink, session and qty. The
 * text is a header line and one comma-joined line per row, the lines joined
 * with newlines. Nothing is quoted or escaped.
 */
module Export {
  import opened Strings
  import opened Numerals
  import opened Delimited
  import opened Entries

  /** The bounds used when `from` or `to` is not given. */
  const DefaultFrom := "1970-01-01"
  const DefaultTo := "2100-01-01"

  /**
   * The row's date lies between `from` and `to`, both ends included,
   * compared as text; nothing is in range when `from` sorts after `to`.
   */
  function InRange(e: Entry, from: string, to: string): (r: bool)
    ensures r ==> LessEq(from, to)
  {
    if LessEq(from, e.localDate) && LessEq(e.localDate, to) then
      LessEqTransitive(from, e.localDate, to);
      true
    else
      false
  }

  /** The rows in range, in table order; each kept row keeps its multiplicity. */
  function Between(rows: seq<Entry>, from: string, to: string): (r: seq<Entry>)
    ensures forall e :: multiset(r)[e] == if InRange(e, from, to) then multiset(rows)[e] else 0
  {
    if rows == [] then []
    else
      var r := (if InRange(rows[0], from, to) then [rows[0]] else []) + Between(rows[1..], from, to);
      assert rows == [rows[0]] + rows[1..];
      r
  }

  /** Sorted by local date, then id: `a` may come before `b`. */
  predicate NotAfter(a: Entry, b: Entry) {
    Less(a.localDate, b.localDate) || (a.localDate == b.localDate && a.id <= b.id)
  }

  predicate Ordered(s: seq<Entry>) {
    forall i, j :: 0 <= i < j < |s| ==> NotAfter(s[i], s[j])
  }

  lemma NotAfterTransitive(a: Entry, b: Entry, c: Entry)
    requires NotAfter(a, b) && NotAfter(b, c)
    ensures NotAfter(a, c)
  {
    if Less(a.localDate, b.localDate) && Less(b.localDate, c.localDate) {
      LessTransitive(a.localDate, b.localDate, c.localDate);
    }
  }

  lemma NotAfterTotal(a: Entry, b: Entry)
    ensures NotAfter(a, b) || NotAfter(b, a)
  {
    LessTotal(a.localDate, b.localDate);
  }

  /** Two rows that may each come before the other share date and id. */
  lemma NotAfterAntisymmetric(a: Entry, b: Entry)
    requires NotAfter(a, b) && NotAfter(b, a)
    ensures a.localDate == b.localDate && a.id == b.id
  {
    if Less(a.localDate, b.localDate) {
      LessAsymmetric(a.localDate, b.localDate);
    } else if Less(b.localDate, a.localDate) {
      LessAsymmetric(b.localDate, a.localDate);
    }
  }

  /** Inserts a row into an ordered list, before every row it may precede. */
  function InsertRow(e: Entry, s: seq<Entry>): (r: seq<Entry>)
    requires Ordered(s)
    ensures Ordered(r)
    ensures multiset(r) == multiset(s) + multiset{e}
  {
    if s == [] then [e]
    else if NotAfter(e, s[0]) then
      PrependOrdered(e, s);
      [e] + s
    else
      NotAfterTotal(e, s[0]);
      var tail := InsertRow(e, s[1..]);
      InsertedHead(e, s, tail);
      PrependOrdered(s[0], tail);
      assert s == [s[0]] + s[1..];
      [s[0]] + tail
  }

  /** A row that may precede the first row of an ordered list may go in front of it. */
  lemma PrependOrdered(x: Entry, s: seq<Entry>)
    requires Ordered(s)
    requires s == [] || NotAfter(x, s[0])
    ensures Ordered([x] + s)
  {
    forall j | 0 <= j < |s|
      ensures NotAfter(x, s[j])
    {
      if j > 0 {
        NotAfterTransitive(x, s[0], s[j]);
      }
    }
  }

  /** After inserting into the tail, the old head may still precede everything. */
  lemma InsertedHead(e: Entry, s: seq<Entry>, tail: seq<Entry>)
    requires Ordered(s) && s != [] && NotAfter(s[0], e)
    requires multiset(tail) == multiset(s[1..]) + multiset{e}
    ensures tail != [] && NotAfter(s[0], tail[0])
  {
    assert e in multiset(tail);
    assert tail[0] in multiset(tail);
    if tail[0] != e {
      assert tail[0] in multiset(s[1..]);
      var k :| 0 <= k < |s[1..]| && s[1..][k] == tail[0];
      assert s[k + 1] == tail[0];
    }
  }

  /** Insertion sort on (local_date, id). */
  function SortRows(s: seq<Entry>): (r: seq<Entry>)
    ensures Ordered(r)
    ensures multiset(r) == multiset(s)
  {
    if s == [] then []
    else
      assert s == [s[0]] + s[1..];
      InsertRow(s[0], SortRows(s[1..]))
  }

  /** The rows of the export, in the order of the query. */
  function ExportRows(rows: seq<Entry>, from: string, to: string): (r: seq<Entry>)
    ensures Ordered(r)
    ensures multiset(r) == multiset(Between(rows, from, to))
    ensures forall e :: e in r <==> e in rows && InRange(e, from, to)
  {
    var r := SortRows(Between(rows, from, to));
    assert forall e :: e in r <==> e in multiset(r);
    r
  }

  /**
   * With unique ids, sorting by local date and then id leaves no choice: any two
   * ordered arrangements of the same rows are the same sequence.
   */
  lemma {:induction false} OrderedUnique(a: seq<Entry>, b: seq<Entry>)
    requires Ordered(a) && Ordered(b)
    requires multiset(a) == multiset(b)
    requires UniqueIds(a)
    ensures a == b
  {
    assert |a| == |multiset(a)| == |multiset(b)| == |b|;
    if a != [] {
      SameHead(a, b);
      SameTail(a, b);
      UniqueIdsTail(a);
      OrderedUnique(a[1..], b[1..]);
      assert a == [a[0]] + a[1..] && b == [b[0]] + b[1..];
    }
  }

  /** The first row of an ordered arrangement is determined by its rows. */
  lemma SameHead(a: seq<Entry>, b: seq<Entry>)
    requires Ordered(a) && Ordered(b)
    requires multiset(a) == multiset(b)
    requires UniqueIds(a)
    requires a != [] && b != []
    ensures a[0] == b[0]
  {
    assert a[0] in multiset(b) && b[0] in multiset(a);
    var k :| 0 <= k < |b| && b[k] == a[0];
    var m :| 0 <= m < |a| && a[m] == b[0];
    assert NotAfter(b[0], a[0]) by {
      if k != 0 {
        assert NotAfter(b[0], b[k]);
      }
    }
    assert NotAfter(a[0], b[0]) by {
      if m != 0 {
        assert NotAfter(a[0], a[m]);
      }
    }
    NotAfterAntisymmetric(a[0], b[0]);
  }

  lemma SameTail(a: seq<Entry>, b: seq<Entry>)
    requires a != [] && b != [] && a[0] == b[0]
    requires multiset(a) == multiset(b)
    ensures multiset(a[1..]) == multiset(b[1..])
  {
    assert a == [a[0]] + a[1..];
    assert b == [b[0]] + b[1..];
    calc {
      multiset(a[1..]);
      multiset(a) - multiset{a[0]};
      multiset(b) - multiset{b[0]};
      multiset(b[1..]);
    }
  }

  lemma UniqueIdsTail(a: seq<Entry>)
    requires a != [] && UniqueIds(a)
    ensures UniqueIds(a[1..])
  {
    forall i, j | 0 <= i < |a[1..]| && 0 <= j < |a[1..]| && a[1..][i].id == a[1..][j].id
      ensures i == j
    {
      assert a[i + 1].id == a[j + 1].id;
    }
  }

  /**
   * The export holds exactly the rows whose date lies in the range, each
   * once, and it is the only arrangement of them that the query's
   * sort by local date and then id allows.
   */
  lemma ExportRowsSpec(rows: seq<Entry>, nextId: int, from: string, to: string, s: seq<Entry>)
    requires TableInvariant(rows, nextId)
    requires Ordered(s) && multiset(s) == multiset(Between(rows, from, to))
    ensures s == ExportRows(rows, from, to)
    ensures forall i, j :: 0 <= i < j < |s| ==> Less(s[i].localDate, s[j].localDate) || (s[i].localDate == s[j].localDate && s[i].id < s[j].id)
  {
    var r := ExportRows(rows, from, to);
    SubMultisetUnique(r, rows, nextId);
    OrderedUnique(r, s);
    forall i, j | 0 <= i < j < |s|
      ensures Less(s[i].localDate, s[j].localDate) || (s[i].localDate == s[j].localDate && s[i].id < s[j].id)
    {
      assert NotAfter(s[i], s[j]);
      assert s[i].id != s[j].id;
    }
  }

  /** Rows drawn from the table, each at most as often as it occurs there, have unique ids. */
  lemma SubMultisetUnique(a: seq<Entry>, rows: seq<Entry>, nextId: int)
    requires TableInvariant(rows, nextId)
    requires multiset(a) <= multiset(rows)
    ensures UniqueIds(a)
  {
    forall i, j | 0 <= i < |a| && 0 <= j < |a| && a[i].id == a[j].id
      ensures i == j
    {
      assert a[i] in multiset(a) && a[j] in multiset(a);
      SameIdSameRow(rows, nextId, a[i], a[j]);
      MultiplicityAtMostOne(rows, nextId, a[i]);
      if i != j {
        TwoPositions(a, i, j);
        assert false;
      }
    }
  }

  /** Two table rows with the same id are the same row. */
  lemma SameIdSameRow(rows: seq<Entry>, nextId: int, x: Entry, y: Entry)
    requires TableInvariant(rows, nextId)
    requires x in rows && y in rows && x.id == y.id
    ensures x == y
  {
    InvariantUniqueIds(rows, nextId);
    var p :| 0 <= p < |rows| && rows[p] == x;
    var q :| 0 <= q < |rows| && rows[q] == y;
  }

  /** Ids are unique, so no row occurs twice in the table. */
  lemma {:induction false} MultiplicityAtMostOne(rows: seq<Entry>, nextId: int, e: Entry)
    requires TableInvariant(rows, nextId)
    ensures multiset(rows)[e] <= 1
  {
    if rows != [] {
      var last := rows[|rows| - 1];
      var init := rows[..|rows| - 1];
      assert rows == init + [last];
      assert TableInvariant(init, nextId);
      MultiplicityAtMostOne(init, nextId, e);
      LastIsNew(rows, nextId);
    }
  }

  /** The last row of the table occurs nowhere before it. */
  lemma LastIsNew(rows: seq<Entry>, nextId: int)
    requires TableInvariant(rows, nextId) && rows != []
    ensures rows[|rows| - 1] !in rows[..|rows| - 1]
  {
    var init := rows[..|rows| - 1];
    forall p | 0 <= p < |init|
      ensures init[p] != rows[|rows| - 1]
    {
      assert init[p].id == rows[p].id < rows[|rows| - 1].id;
    }
  }

  /** A value found at two positions occurs at least twice. */
  lemma TwoPositions(s: seq<Entry>, i: nat, j: nat)
    requires i < j < |s| || j < i < |s|
    requires s[i] == s[j]
    ensures multiset(s)[s[i]] >= 2
  {
    var lo, hi := if i < j then i else j, if i < j then j else i;
    assert s == s[..lo] + [s[lo]] + s[lo + 1..hi] + [s[hi]] + s[hi + 1..];
  }

  /** The header row: the column names in the order the query selects them. */
  const Header: seq<string> := ["id", "local_date", "ts_utc", "name", "drink", "session", "qty"]

  /** The row's values in header order: integers rendered in decimal, text as it is. */
  function Columns(e: Entry): (r: seq<string>)
    ensures |r| == |Header|
  {
    [IntToString(e.id), e.localDate, e.tsUtc, e.name, e.drink, e.session, IntToString(e.qty)]
  }

  /** The first line of every export: the column names, comma-separated (see `HeaderLine`). */
  const HeaderText: string := "id" + "," + "local_date" + "," + "ts_utc" + "," + "name" + "," + "drink" + "," + "session" + "," + "qty"

  /**
   * One data line of the export: the row's columns joined with commas. It
   * holds a line break exactly when a text column does, and it splits back
   * into the columns when no text column holds a comma.
   */
  function CsvLine(e: Entry): (r: string)
    ensures '\n' !in r <==> TextFree(e, '\n')
    ensures TextFree(e, ',') ==> Split(r, ',') == Columns(e)
  {
    ColumnsNewlines(e);
    ColumnsSplit(e);
    Join(Columns(e), ',')
  }

  /** The lines of the export: the header line, then one line per exported row. */
  function CsvLines(rows: seq<Entry>): (r: seq<string>)
    ensures |r| == |rows| + 1
    ensures r[0] == HeaderText
    ensures forall i :: 0 <= i < |rows| ==> r[i + 1] == CsvLine(rows[i])
  {
    [HeaderText] + seq(|rows|, i requires 0 <= i < |rows| => CsvLine(rows[i]))
  }

  /** Writing one more row adds its line at the end. */
  lemma CsvLinesAppend(rows: seq<Entry>, e: Entry)
    ensures CsvLines(rows + [e]) == CsvLines(rows) + [CsvLine(e)]
  {
    var a, b := CsvLines(rows + [e]), CsvLines(rows) + [CsvLine(e)];
    assert |a| == |b|;
    forall i | 0 <= i < |a|
      ensures a[i] == b[i]
    {
      if 0 < i <= |rows| {
        assert (rows + [e])[i - 1] == rows[i - 1];
      }
    }
  }

  /**
   * The body of the response: the lines joined with newlines. Read back
   * line by line it has at least N + 1 lines for N rows, exactly N + 1 when
   * no text column of a row holds a line break, and then they are the
   * header and row lines.
   */
  function CsvText(rows: seq<Entry>): (r: string)
    ensures |Split(r, '\n')| >= |rows| + 1
    ensures |Split(r, '\n')| == |rows| + 1 <==> forall i :: 0 <= i < |rows| ==> TextFree(rows[i], '\n')
    ensures (forall i :: 0 <= i < |rows| ==> TextFree(rows[i], '\n')) ==> Split(r, '\n') == CsvLines(rows)
  {
    LinesCount(rows);
    LinesRoundTrip(rows);
    Join(CsvLines(rows), '\n')
  }

  /** The header line is the column names joined with commas. */
  lemma HeaderLine()
    ensures Join(Header, ',') == HeaderText
  {
    JoinSeven(Header, ',');
  }

  /** The header line splits back into the column names. */
  lemma HeaderColumns()
    ensures Split(HeaderText, ',') == Header
  {
    HeaderLine();
    assert forall i :: 0 <= i < |Header| ==> ',' !in Header[i];
    SplitJoin(Header, ',');
  }

  /** The header line holds no line break. */
  lemma HeaderOneLine()
    ensures '\n' !in HeaderText
  {
    HeaderLine();
    assert forall i :: 0 <= i < |Header| ==> '\n' !in Header[i];
    CountJoin(Header, ',', '\n');
    CountAllZero(Header, '\n');
    CountZero(Join(Header, ','), '\n');
  }

  lemma JoinSeven(h: seq<string>, sep: char)
    requires |h| == 7
    ensures Join(h, sep) == h[0] + [sep] + h[1] + [sep] + h[2] + [sep] + h[3] + [sep] + h[4] + [sep] + h[5] + [sep] + h[6]
  {
    JoinFirst(h, sep);
    JoinFirst(h[1..], sep);
    JoinFirst(h[2..], sep);
    JoinFirst(h[3..], sep);
    JoinFirst(h[4..], sep);
    JoinFirst(h[5..], sep);
    assert h[1..][1..] == h[2..] && h[2..][1..] == h[3..] && h[3..][1..] == h[4..];
    assert h[4..][1..] == h[5..] && h[5..][1..] == h[6..];
  }

  lemma JoinFirst(parts: seq<string>, sep: char)
    requires |parts| >= 2
    ensures Join(parts, sep) == parts[0] + [sep] + Join(parts[1..], sep)
  {
  }

  /** The text columns of a row contain no `c`. */
  predicate TextFree(e: Entry, c: char) {
    c !in e.localDate && c !in e.tsUtc && c !in e.name && c !in e.drink && c !in e.session
  }

  lemma IntFree(i: int, c: char)
    requires c == ',' || c == '\n'
    ensures c !in IntToString(i)
  {
    IntToStringCharacters(i);
  }

  /** `c` occurs in no column of a row exactly when its text columns are free of it. */
  lemma ColumnsFree(e: Entry, c: char)
    requires c == ',' || c == '\n'
    ensures (forall i :: 0 <= i < |Columns(e)| ==> c !in Columns(e)[i]) <==> TextFree(e, c)
  {
    IntFree(e.id, c);
    IntFree(e.qty, c);
    var cols := Columns(e);
    if TextFree(e, c) {
      forall i | 0 <= i < |cols|
        ensures c !in cols[i]
      {
      }
    } else {
      assert c in cols[1] || c in cols[2] || c in cols[3] || c in cols[4] || c in cols[5];
    }
  }

  lemma ColumnsSplit(e: Entry)
    ensures TextFree(e, ',') ==> Split(Join(Columns(e), ','), ',') == Columns(e)
  {
    if TextFree(e, ',') {
      ColumnsFree(e, ',');
      SplitJoin(Columns(e), ',');
    }
  }

  lemma ColumnsNewlines(e: Entry)
    ensures '\n' !in Join(Columns(e), ',') <==> TextFree(e, '\n')
  {
    ColumnsFree(e, '\n');
    CountJoin(Columns(e), ',', '\n');
    CountZero(Join(Columns(e), ','), '\n');
    CountAllZero(Columns(e), '\n');
  }

  /** No line of the export contains a newline exactly when no text column of an exported row does. */
  lemma CsvLinesFree(rows: seq<Entry>)
    ensures (forall i :: 0 <= i < |CsvLines(rows)| ==> '\n' !in CsvLines(rows)[i])
        <==> (forall i :: 0 <= i < |rows| ==> TextFree(rows[i], '\n'))
  {
    var lines := CsvLines(rows);
    HeaderOneLine();
    if forall i :: 0 <= i < |rows| ==> TextFree(rows[i], '\n') {
      forall i | 0 <= i < |lines|
        ensures '\n' !in lines[i]
      {
      }
    } else {
      var i :| 0 <= i < |rows| && !TextFree(rows[i], '\n');
      assert '\n' in lines[i + 1];
    }
  }

  lemma LinesCount(rows: seq<Entry>)
    ensures |Split(Join(CsvLines(rows), '\n'), '\n')| >= |rows| + 1
    ensures |Split(Join(CsvLines(rows), '\n'), '\n')| == |rows| + 1 <==> forall i :: 0 <= i < |rows| ==> TextFree(rows[i], '\n')
  {
    var lines := CsvLines(rows);
    SplitCount(Join(lines, '\n'), '\n');
    CountJoin(lines, '\n', '\n');
    CountAllZero(lines, '\n');
    CsvLinesFree(rows);
  }

  lemma LinesRoundTrip(rows: seq<Entry>)
    ensures (forall i :: 0 <= i < |rows| ==> TextFree(rows[i], '\n')) ==> Split(Join(CsvLines(rows), '\n'), '\n') == CsvLines(rows)
  {
    if forall i :: 0 <= i < |rows| ==> TextFree(rows[i], '\n') {
      CsvLinesFree(rows);
      SplitJoin(CsvLines(rows), '\n');
    }
  }
}
