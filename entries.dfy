/**
 * One row of the `entries` table and the invariants every stored row keeps.
 * The table is append-only: rows are only ever inserted by the submission
 * handler, never updated or deleted.
 */
module Entries {
  import Strings

  /** A row of `entries`, columns in declaration order. */
  datatype Entry = Entry(
    id: int,           // INTEGER PRIMARY KEY AUTOINCREMENT
    name: string,
    drink: string,
    session: string,
    qty: int,
    tsUtc: string,     // UTC timestamp, ISO-8601 to the second
    localDate: string  // YYYY-MM-DD in UTC+05:30
  )

  predicate ValidSession(session: string) {
    session == "AM" || session == "PM"
  }

  predicate ValidQty(qty: int) {
    1 <= qty <= 10
  }

  /**
   * The column constraints the submission handler enforces: name and drink
   * non-empty and without surrounding whitespace, session AM or PM,
   * quantity in [1, 10].
   */
  predicate ValidColumns(name: string, drink: string, session: string, qty: int) {
    && name != [] && Strings.Stripped(name)
    && drink != [] && Strings.Stripped(drink)
    && ValidSession(session)
    && ValidQty(qty)
  }

  /** What every row written by the submission handler satisfies. */
  predicate WellFormed(e: Entry) {
    e.id >= 1 && ValidColumns(e.name, e.drink, e.session, e.qty)
  }

  /**
   * The table as a whole: every row well formed, ids strictly increasing in
   * insertion order, and every id below the next one AUTOINCREMENT hands out.
   */
  predicate TableInvariant(rows: seq<Entry>, nextId: int) {
    && nextId >= 1
    && (forall i :: 0 <= i < |rows| ==> WellFormed(rows[i]) && rows[i].id < nextId)
    && (forall i, j :: 0 <= i < j < |rows| ==> rows[i].id < rows[j].id)
  }

  /** No two rows share an id. */
  predicate UniqueIds(rows: seq<Entry>) {
    forall i, j :: 0 <= i < |rows| && 0 <= j < |rows| && rows[i].id == rows[j].id ==> i == j
  }

  lemma InvariantUniqueIds(rows: seq<Entry>, nextId: int)
    requires TableInvariant(rows, nextId)
    ensures UniqueIds(rows)
  {
    forall i, j | 0 <= i < |rows| && 0 <= j < |rows| && rows[i].id == rows[j].id
      ensures i == j
    {
      if i < j || j < i {
        assert false;
      }
    }
  }

  /**
   * Appending a well-formed row whose id is the next one keeps the invariant,
   * with the counter moved past it.
   */
  lemma InvariantAppend(rows: seq<Entry>, nextId: int, e: Entry)
    requires TableInvariant(rows, nextId)
    requires WellFormed(e) && e.id == nextId
    ensures TableInvariant(rows + [e], nextId + 1)
  {
  }
}
