/**
 * The persistent store: one `transactions` table, reached only through
 * fixed, parameterised statements. The table is modelled as a sequence of
 * rows plus the AUTOINCREMENT counter; whether a statement could be
 * prepared and run is a boolean the caller supplies.
 */
module Database {
  import opened Model

  /** One row of the table; the `type` column holds the integer code of the type. */
  datatype Row = Row(
    id: int,
    description: string,
    amount: real,
    category: string,
    typeCode: int,
    date: int)

  /** The WHERE clauses the statements use. */
  datatype Where = Everything | CategoryIs(category: string) | TypeIs(code: int) | IdIs(id: int)

  predicate Matches(w: Where, r: Row) {
    match w
    case Everything => true
    case CategoryIs(c) => r.category == c
    case TypeIs(code) => r.typeCode == code
    case IdIs(id) => r.id == id
  }

  /** The row a record is written as under the id `id`: the five non-id columns are bound from the record. */
  function ToRow(id: int, t: Transaction): (r: Row)
    ensures IsTypeCode(r.typeCode)
    ensures DecodeRow(r) == t.(id := id)
  {
    Row(id, t.description, t.amount, t.category, TypeCode(t.kind), t.date)
  }

  /**
   * The record a row is read back as: every column into its field, the
   * `type` column through the cast to the enumeration.
   */
  function DecodeRow(r: Row): (t: Transaction)
    ensures IsTypeCode(r.typeCode) ==> TypeCode(t.kind) == r.typeCode
  {
    Transaction(r.id, r.description, r.amount, r.category, TypeOfCode(r.typeCode), r.date)
  }

  /** A row this program wrote, read back and written again under its own id, is the same row. */
  lemma RowRoundTrip(r: Row)
    requires IsTypeCode(r.typeCode)
    ensures ToRow(r.id, DecodeRow(r)) == r
  {
  }

  predicate CodesValid(rows: seq<Row>) {
    forall r <- rows :: IsTypeCode(r.typeCode)
  }

  function DecodeAll(rows: seq<Row>): (ts: seq<Transaction>)
  {
    seq(|rows|, i requires 0 <= i < |rows| => DecodeRow(rows[i]))
  }

  predicate UniqueIds(rows: seq<Row>) {
    forall i, j :: 0 <= i < j < |rows| ==> rows[i].id != rows[j].id
  }

  /** A table this program can have written: valid type codes, distinct ids below the counter. */
  predicate TableWellFormed(rows: seq<Row>, nextId: int) {
    && 1 <= nextId
    && CodesValid(rows)
    && UniqueIds(rows)
    && (forall r <- rows :: 1 <= r.id < nextId)
  }

  /** The rows, in table order, for which clause `w` holds (`keep`) or fails (`!keep`). */
  function Filter(rows: seq<Row>, w: Where, keep: bool): (s: seq<Row>)
    ensures forall x <- s :: x in rows && Matches(w, x) == keep
  {
    if rows == [] then []
    else (if Matches(w, rows[0]) == keep then [rows[0]] else []) + Filter(rows[1..], w, keep)
  }

  /** The rows a SELECT with clause `w` reads. */
  function Select(rows: seq<Row>, w: Where): (s: seq<Row>)
    ensures forall x <- s :: x in rows && Matches(w, x)
  {
    Filter(rows, w, true)
  }

  /** The rows left by DELETE with clause `w`. */
  function Remove(rows: seq<Row>, w: Where): (s: seq<Row>)
    ensures forall x <- s :: x in rows && !Matches(w, x)
  {
    Filter(rows, w, false)
  }

  /** The table after UPDATE ... SET every non-id column from `t` WHERE `w`. */
  function Assign(rows: seq<Row>, w: Where, t: Transaction): (s: seq<Row>)
    ensures |s| == |rows|
    ensures forall i :: 0 <= i < |rows| ==> s[i].id == rows[i].id
    ensures forall i :: 0 <= i < |rows| && Matches(w, rows[i]) ==>
      IsTypeCode(s[i].typeCode) && DecodeRow(s[i]) == t.(id := rows[i].id)
    ensures forall i :: 0 <= i < |rows| && !Matches(w, rows[i]) ==> s[i] == rows[i]
  {
    seq(|rows|, i requires 0 <= i < |rows| => if Matches(w, rows[i]) then ToRow(rows[i].id, t) else rows[i])
  }

  /** SUM(amount) over the given rows; the sum of no rows reads as 0. */
  function Total(rows: seq<Row>): (sum: real)
    ensures (forall x <- rows :: x.amount >= 0.0) ==> sum >= 0.0
    ensures (forall x <- rows :: x.amount > 0.0) ==> (sum > 0.0 <==> rows != [])
  {
    if rows == [] then 0.0 else rows[0].amount + Total(rows[1..])
  }

  predicate RowsByDateDesc(s: seq<Row>) {
    forall i, j :: 0 <= i < j < |s| ==> s[i].date >= s[j].date
  }

  /** Putting a row no older than the head in front keeps the order. */
  lemma PrependKeepsOrder(y: Row, s: seq<Row>)
    requires RowsByDateDesc(s)
    requires s == [] || y.date >= s[0].date
    ensures RowsByDateDesc([y] + s)
  {
  }

  function InsertByDate(x: Row, s: seq<Row>): (r: seq<Row>)
    requires RowsByDateDesc(s)
    ensures RowsByDateDesc(r)
    ensures multiset(r) == multiset(s) + multiset{x}
    ensures r[0] == x || r[0] == s[0]
  {
    if s == [] || x.date >= s[0].date then
      PrependKeepsOrder(x, s);
      [x] + s
    else
      var rest := InsertByDate(x, s[1..]);
      PrependKeepsOrder(s[0], rest);
      assert multiset(s) == multiset{s[0]} + multiset(s[1..]) by {
        assert s == [s[0]] + s[1..];
      }
      [s[0]] + rest
  }

  /**
   * ORDER BY date DESC: some arrangement of the rows with dates never
   * increasing. Callers rely only on this contract, not on the order this
   * body happens to give to rows with equal dates.
   */
  function OrderByDateDesc(s: seq<Row>): (r: seq<Row>)
    ensures RowsByDateDesc(r)
    ensures multiset(r) == multiset(s)
  {
    if s == [] then []
    else
      assert s == [s[0]] + s[1..];
      InsertByDate(s[0], OrderByDateDesc(s[1..]))
  }

  /** `ts` is what a SELECT with clause `w` returns: every matching row exactly once, most recent first. */
  predicate IsListing(ts: seq<Transaction>, rows: seq<Row>, w: Where)
  {
    multiset(ts) == multiset(DecodeAll(Select(rows, w))) && ByDateDesc(ts)
  }

  class DatabaseHandler {
    var path: string
    /** The connection handle is non-null. */
    var connected: bool
    var rows: seq<Row>
    /** The id the next INSERT receives: one more than the largest id ever issued. */
    var nextId: int
    /** The ids the table held when opened and every id inserted since, including those of deleted rows. */
    ghost var issued: set<int>

    ghost predicate Valid()
      reads this
    {
      && TableWellFormed(rows, nextId)
      && (forall r <- rows :: r.id in issued)
      && (forall id <- issued :: 1 <= id < nextId)
    }

    constructor (dbPath: string)
      ensures Valid()
      ensures path == dbPath && !connected
      ensures rows == [] && nextId == 1 && issued == {}
    {
      path := dbPath;
      connected := false;
      rows := [];
      nextId := 1;
      issued := {};
    }

    /**
     * Opens the file at `path` and ensures the table exists. The file's
     * current table (`stored`, with counter `storedNext`) and the outcomes of
     * opening (`openSucceeded`, `handleReturned`) and of the CREATE TABLE IF NOT
     * EXISTS statement (`created`) are inputs.
     */
    method Initialize(stored: seq<Row>, storedNext: int, openSucceeded: bool, handleReturned: bool, created: bool)
      returns (ok: bool)
      requires TableWellFormed(stored, storedNext)
      requires openSucceeded ==> handleReturned
      modifies this
      ensures Valid()
      ensures ok == (openSucceeded && created)
      ensures connected == handleReturned
      ensures path == old(path) && rows == stored && nextId == storedNext
    {
      connected := handleReturned;
      rows := stored;
      nextId := storedNext;
      issued := set r <- stored :: r.id;
      ok := openSucceeded && created;
    }

    /** A connection handle is held (the handle is non-null). */
    predicate IsConnected()
      reads this
    {
      connected
    }

    /**
     * INSERT of the five non-id columns of `t`; `t.id` is not bound, the
     * row receives the counter. `succeeds` says whether the statement was
     * prepared and stepped to completion.
     */
    method AddTransaction(t: Transaction, succeeds: bool) returns (ok: bool)
      requires Valid()
      modifies this`rows, this`nextId, this`issued
      ensures Valid()
      ensures ok == succeeds
      ensures ok ==> old(nextId) !in old(issued) && forall r <- old(rows) :: r.id < old(nextId)
      ensures ok ==> rows == old(rows) + [ToRow(old(nextId), t)]
      ensures ok ==> nextId == old(nextId) + 1 && issued == old(issued) + {old(nextId)}
      ensures !ok ==> unchanged(this)
    {
      if !succeeds {
        return false;
      }
      var row := ToRow(nextId, t);
      assert forall r <- rows :: r.id < row.id;
      rows := rows + [row];
      issued := issued + {nextId};
      nextId := nextId + 1;
      ok := true;
    }

    /**
     * UPDATE of the five non-id columns of every row whose id is `t.id`.
     * An id no row has matches nothing, and the result is still true.
     */
    method UpdateTransaction(t: Transaction, succeeds: bool) returns (ok: bool)
      requires Valid()
      modifies this`rows
      ensures Valid()
      ensures ok == succeeds
      ensures rows == if ok then Assign(old(rows), IdIs(t.id), t) else old(rows)
    {
      if !succeeds {
        return false;
      }
      rows := Assign(rows, IdIs(t.id), t);
      ok := true;
    }

    /** DELETE of the rows whose id is `id`; an id no row has matches nothing, and the result is still true. */
    method DeleteTransaction(id: int, succeeds: bool) returns (ok: bool)
      requires Valid()
      modifies this`rows
      ensures Valid()
      ensures ok == succeeds
      ensures rows == if ok then Remove(old(rows), IdIs(id)) else old(rows)
    {
      if !succeeds {
        return false;
      }
      FilterCount(rows, IdIs(id), false);
      SubsetStaysWellFormed(rows, Remove(rows, IdIs(id)), nextId);
      rows := Remove(rows, IdIs(id));
      ok := true;
    }

    /**
     * SELECT ... WHERE `w` ORDER BY date DESC, read row by row. When the
     * statement cannot be prepared the result is empty.
     */
    method Query(w: Where, prepared: bool) returns (ts: seq<Transaction>)
      requires Valid()
      ensures !prepared ==> ts == []
      ensures prepared ==> IsListing(ts, rows, w)
    {
      ts := [];
      if !prepared {
        return;
      }
      var cursor := OrderByDateDesc(Select(rows, w));
      ts := ReadRows(cursor);
      ReadingSortedCursorIsListing(rows, w, cursor);
    }

    method GetAllTransactions(prepared: bool) returns (ts: seq<Transaction>)
      requires Valid()
      ensures !prepared ==> ts == []
      ensures prepared ==> IsListing(ts, rows, Everything)
    {
      ts := Query(Everything, prepared);
    }

    method GetTransactionsByCategory(category: string, prepared: bool) returns (ts: seq<Transaction>)
      requires Valid()
      ensures !prepared ==> ts == []
      ensures prepared ==> IsListing(ts, rows, CategoryIs(category))
    {
      ts := Query(CategoryIs(category), prepared);
    }

    method GetTransactionsByType(kind: TransactionType, prepared: bool) returns (ts: seq<Transaction>)
      requires Valid()
      ensures !prepared ==> ts == []
      ensures prepared ==> IsListing(ts, rows, TypeIs(TypeCode(kind)))
    {
      ts := Query(TypeIs(TypeCode(kind)), prepared);
    }

    /** SELECT SUM(amount) ... WHERE type = ?; 0 when the statement cannot be prepared. */
    method GetTotalByType(kind: TransactionType, prepared: bool) returns (total: real)
      requires Valid()
      ensures total == if prepared then Total(Select(rows, TypeIs(TypeCode(kind)))) else 0.0
    {
      total := 0.0;
      if prepared {
        total := Total(Select(rows, TypeIs(TypeCode(kind))));
      }
    }

    /** SELECT SUM(amount) ... WHERE category = ?; 0 when the statement cannot be prepared. */
    method GetTotalByCategory(category: string, prepared: bool) returns (total: real)
      requires Valid()
      ensures total == if prepared then Total(Select(rows, CategoryIs(category))) else 0.0
    {
      total := 0.0;
      if prepared {
        total := Total(Select(rows, CategoryIs(category)));
      }
    }
  }

  /** The `while (sqlite3_step(...) == SQLITE_ROW)` loop: each row the statement yields is read and appended. */
  method ReadRows(cursor: seq<Row>) returns (ts: seq<Transaction>)
    ensures ts == DecodeAll(cursor)
  {
    ts := [];
    var i := 0;
    while i < |cursor|
      invariant 0 <= i <= |cursor|
      invariant ts == DecodeAll(cursor[..i])
    {
      DecodeAllAppend(cursor[..i], [cursor[i]]);
      assert cursor[..i + 1] == cursor[..i] + [cursor[i]];
      ts := ts + [DecodeRow(cursor[i])];
      i := i + 1;
    }
    assert cursor[..i] == cursor;
  }

  // ---------------------------------------------------------------------
  // Properties of the statements
  // ---------------------------------------------------------------------

  /** A table with some rows dropped is still well formed. */
  lemma SubsetStaysWellFormed(a: seq<Row>, b: seq<Row>, nextId: int)
    requires TableWellFormed(a, nextId)
    requires forall x :: multiset(b)[x] <= multiset(a)[x]
    ensures TableWellFormed(b, nextId)
    ensures forall r <- b :: r in a
  {
    forall r | r in b ensures r in a {
      assert r in multiset(b);
    }
    forall i, j | 0 <= i < j < |b| ensures b[i].id != b[j].id {
      if b[i].id == b[j].id {
        DistinctIdsMeanDistinctRows(a, b[i], b[j]);
        if b[i] == b[j] {
          TwiceMeansCountTwo(b, i, j);
        }
      }
    }
  }

  /** In a table with distinct ids, two rows sharing an id are the same row, and it occurs once. */
  lemma DistinctIdsMeanDistinctRows(a: seq<Row>, x: Row, y: Row)
    requires UniqueIds(a) && x in a && y in a && x.id == y.id
    ensures x == y && multiset(a)[x] == 1
  {
    OnceIfUniqueId(a, x);
  }

  lemma {:induction false} OnceIfUniqueId(a: seq<Row>, x: Row)
    requires UniqueIds(a) && x in a
    ensures multiset(a)[x] == 1
    ensures forall y <- a :: y.id == x.id ==> y == x
  {
    assert a == [a[0]] + a[1..];
    if a[0] == x {
      assert forall y <- a[1..] :: y.id != x.id;
      assert x !in a[1..];
    } else {
      assert UniqueIds(a[1..]) by {
        forall i, j | 0 <= i < j < |a[1..]| ensures a[1..][i].id != a[1..][j].id {
          assert a[1..][i] == a[i + 1] && a[1..][j] == a[j + 1];
        }
      }
      OnceIfUniqueId(a[1..], x);
      assert a[0].id != x.id by {
        var k :| 1 <= k < |a| && a[k] == x;
      }
    }
  }

  lemma TwiceMeansCountTwo(s: seq<Row>, i: int, j: int)
    requires 0 <= i < j < |s| && s[i] == s[j]
    ensures multiset(s)[s[i]] >= 2
  {
    assert s == s[..i] + [s[i]] + s[i + 1..j] + [s[j]] + s[j + 1..];
  }

  lemma DecodeAllAppend(a: seq<Row>, b: seq<Row>)
    ensures DecodeAll(a + b) == DecodeAll(a) + DecodeAll(b)
  {
  }

  /** Filtering keeps every copy of a row that passes and none of a row that fails. */
  lemma {:induction false} FilterCount(rows: seq<Row>, w: Where, keep: bool)
    ensures forall x :: multiset(Filter(rows, w, keep))[x] == if Matches(w, x) == keep then multiset(rows)[x] else 0
  {
    if rows != [] {
      FilterCount(rows[1..], w, keep);
      assert rows == [rows[0]] + rows[1..];
    }
  }

  /** Reading, row by row, the selected rows in date order gives a listing of them. */
  lemma ReadingSortedCursorIsListing(rows: seq<Row>, w: Where, cursor: seq<Row>)
    requires multiset(cursor) == multiset(Select(rows, w)) && RowsByDateDesc(cursor)
    ensures IsListing(DecodeAll(cursor), rows, w)
  {
    DecodeAllPermutation(cursor, Select(rows, w));
    DecodeAllKeepsDates(cursor);
  }

  lemma DecodeAllKeepsDates(rows: seq<Row>)
    requires RowsByDateDesc(rows)
    ensures ByDateDesc(DecodeAll(rows))
  {
  }

  lemma MultisetWithout(b: seq<Row>, i: int)
    requires 0 <= i < |b|
    ensures multiset(b[..i] + b[i + 1..]) == multiset(b) - multiset{b[i]}
  {
    assert b == b[..i] + [b[i]] + b[i + 1..];
  }

  /** Reading a row out of the middle of a sequence contributes its record once. */
  lemma DecodeAllSplit(front: seq<Row>, x: Row, back: seq<Row>)
    ensures multiset(DecodeAll(front + [x] + back)) == multiset(DecodeAll(front + back)) + multiset(DecodeAll([x]))
  {
    DecodeAllAppend(front, [x]);
    DecodeAllAppend(front + [x], back);
    DecodeAllAppend(front, back);
  }

  /** Reading rows that are a rearrangement of one another gives records that are a rearrangement of one another. */
  lemma {:induction false} DecodeAllPermutation(a: seq<Row>, b: seq<Row>)
    requires multiset(a) == multiset(b)
    ensures multiset(DecodeAll(a)) == multiset(DecodeAll(b))
    decreases |a|
  {
    if a == [] {
      assert |multiset(b)| == 0;
      assert b == [];
    } else {
      var x := a[0];
      assert x in multiset(b);
      var i :| 0 <= i < |b| && b[i] == x;
      var front, back := b[..i], b[i + 1..];
      assert b == front + [x] + back;
      MultisetWithout(b, i);
      assert a == [x] + a[1..];
      assert multiset(a[1..]) == multiset(a) - multiset{x};
      DecodeAllPermutation(a[1..], front + back);
      DecodeAllAppend([x], a[1..]);
      DecodeAllSplit(front, x, back);
      assert multiset(DecodeAll(a)) == multiset(DecodeAll(a[1..])) + multiset(DecodeAll([x]));
    }
  }

  // Listings

  lemma {:induction false} SelectEverything(rows: seq<Row>)
    ensures Select(rows, Everything) == rows
  {
    if rows != [] {
      SelectEverything(rows[1..]);
    }
  }

  /** A listing holds the record of a row exactly when the row matches the clause, and one entry per matching row. */
  lemma ListedIff(ts: seq<Transaction>, rows: seq<Row>, w: Where, x: Transaction)
    requires IsListing(ts, rows, w)
    ensures x in ts <==> exists r <- rows :: Matches(w, r) && DecodeRow(r) == x
    ensures |ts| == |Select(rows, w)|
  {
    var selected := Select(rows, w);
    FilterCount(rows, w, true);
    assert |ts| == |multiset(ts)| == |multiset(DecodeAll(selected))| == |selected|;
    if x in ts {
      assert x in multiset(DecodeAll(selected));
      var k :| 0 <= k < |selected| && DecodeAll(selected)[k] == x;
      assert selected[k] in selected;
    }
    if r :| r in rows && Matches(w, r) && DecodeRow(r) == x {
      assert multiset(selected)[r] == multiset(rows)[r] > 0;
      var k :| 0 <= k < |selected| && selected[k] == r;
      assert DecodeAll(selected)[k] == x;
      assert x in multiset(ts);
    }
  }

  /** The unfiltered listing returns the record of every row exactly once. */
  lemma AllListingIsEveryRow(ts: seq<Transaction>, rows: seq<Row>)
    requires IsListing(ts, rows, Everything)
    ensures multiset(ts) == multiset(DecodeAll(rows))
  {
    SelectEverything(rows);
  }

  // Updates and deletes

  /** UPDATE of an id no row has leaves the table as it was. */
  lemma AssignAbsent(rows: seq<Row>, id: int, t: Transaction)
    requires forall r <- rows :: r.id != id
    ensures Assign(rows, IdIs(id), t) == rows
  {
  }

  /** UPDATE by id reads back as the new record under the same id, and touches no other row. */
  lemma AssignById(rows: seq<Row>, t: Transaction, k: int)
    requires 0 <= k < |rows|
    ensures rows[k].id == t.id ==> DecodeRow(Assign(rows, IdIs(t.id), t)[k]) == t
    ensures rows[k].id != t.id ==> Assign(rows, IdIs(t.id), t)[k] == rows[k]
  {
  }

  /** DELETE of an id no row has leaves the table as it was. */
  lemma {:induction false} RemoveAbsent(rows: seq<Row>, id: int)
    requires forall r <- rows :: r.id != id
    ensures Remove(rows, IdIs(id)) == rows
  {
    if rows != [] {
      RemoveAbsent(rows[1..], id);
    }
  }

  /** In a table with distinct ids, DELETE by the id of a row removes that one row and nothing else. */
  lemma RemoveExactlyOne(rows: seq<Row>, x: Row)
    requires UniqueIds(rows) && x in rows
    ensures multiset(Remove(rows, IdIs(x.id))) == multiset(rows) - multiset{x}
    ensures |Remove(rows, IdIs(x.id))| == |rows| - 1
  {
    OnceIfUniqueId(rows, x);
    FilterCount(rows, IdIs(x.id), false);
    var left := Remove(rows, IdIs(x.id));
    forall y ensures multiset(left)[y] == (multiset(rows) - multiset{x})[y] {
      if y.id == x.id && y != x {
        assert y !in rows;
      }
    }
    assert multiset(left) == multiset(rows) - multiset{x};
    assert |multiset(left)| == |multiset(rows)| - 1;
  }

  // Totals

  lemma {:induction false} TotalAppend(a: seq<Row>, b: seq<Row>)
    ensures Total(a + b) == Total(a) + Total(b)
  {
    if a == [] {
      assert a + b == b;
    } else {
      assert (a + b)[1..] == a[1..] + b;
      TotalAppend(a[1..], b);
    }
  }

  lemma {:induction false} SelectAppend(a: seq<Row>, b: seq<Row>, w: Where)
    ensures Select(a + b, w) == Select(a, w) + Select(b, w)
  {
    if a == [] {
      assert a + b == b;
    } else {
      assert (a + b)[0] == a[0];
      assert (a + b)[1..] == a[1..] + b;
      SelectAppend(a[1..], b, w);
    }
  }

  /** The sum over a non-empty table splits into its first row and the rest. */
  lemma TotalSelectFirst(rows: seq<Row>, w: Where)
    requires rows != []
    ensures Total(Select(rows, w)) == (if Matches(w, rows[0]) then rows[0].amount else 0.0) + Total(Select(rows[1..], w))
  {
    assert rows == [rows[0]] + rows[1..];
    SelectAppend([rows[0]], rows[1..], w);
    TotalAppend(Select([rows[0]], w), Select(rows[1..], w));
  }

  /** SUM over no matching row is 0. */
  lemma {:induction false} TotalOfNoMatch(rows: seq<Row>, w: Where)
    requires forall r <- rows :: !Matches(w, r)
    ensures Total(Select(rows, w)) == 0.0
  {
    if rows != [] {
      TotalSelectFirst(rows, w);
      TotalOfNoMatch(rows[1..], w);
    }
  }

  /** An INSERT adds the new row's amount to exactly the sums whose clause it matches. */
  lemma TotalAfterInsert(rows: seq<Row>, x: Row, w: Where)
    ensures Total(Select(rows + [x], w)) == Total(Select(rows, w)) + (if Matches(w, x) then x.amount else 0.0)
  {
    SelectAppend(rows, [x], w);
    TotalAppend(Select(rows, w), Select([x], w));
    TotalSelectFirst([x], w);
    assert [x][1..] == [];
  }

  /** With only the two type codes stored, the income sum and the expense sum together make the sum of all rows. */
  lemma {:induction false} IncomeAndExpensesCoverAll(rows: seq<Row>)
    requires CodesValid(rows)
    ensures Total(Select(rows, TypeIs(0))) + Total(Select(rows, TypeIs(1))) == Total(rows)
  {
    if rows != [] {
      IncomeAndExpensesCoverAll(rows[1..]);
      TotalSelectFirst(rows, TypeIs(0));
      TotalSelectFirst(rows, TypeIs(1));
    }
  }

  /** The income sum minus the expense sum is the net value of the records the table holds. */
  lemma {:induction false} BalanceIsNet(rows: seq<Row>)
    requires CodesValid(rows)
    ensures Total(Select(rows, TypeIs(0))) - Total(Select(rows, TypeIs(1))) == Net(DecodeAll(rows))
  {
    if rows != [] {
      var r := rows[0];
      BalanceIsNet(rows[1..]);
      TotalSelectFirst(rows, TypeIs(0));
      TotalSelectFirst(rows, TypeIs(1));
      assert DecodeAll(rows)[0] == DecodeRow(r);
      assert DecodeAll(rows)[1..] == DecodeAll(rows[1..]);
      assert Signed(DecodeRow(r)) == if r.typeCode == 0 then r.amount else -r.amount;
    }
  }
}
