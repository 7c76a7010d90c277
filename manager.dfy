/**
 * The ledger manager that sits between the user interface and the store:
 * it validates input, writes through the store, reloads its cached list of
 * records after every successful write, and then calls its observers.
 */
module ViewModel {
  import opened Model
  import opened Database

  /** Observers are opaque callbacks without arguments; each is known by the id it was registered under. */
  type ObserverId = nat

  /** The input the manager forwards to the store: non-empty description and category, positive amount. */
  function Acceptable(description: string, amount: real, category: string): (ok: bool)
    ensures description == [] ==> !ok
    ensures category == [] ==> !ok
    ensures amount <= 0.0 ==> !ok
    ensures description != [] && category != [] && 0.0 < amount ==> ok
  {
    description != [] && category != [] && amount > 0.0
  }

  /** The distinct categories of the given records. */
  function CategoriesOf(ts: seq<Transaction>): set<string> {
    set t <- ts :: t.category
  }

  /** `a` sorts before `b` in std::string's order: lexicographic on character codes, a proper prefix first. */
  predicate Less(a: string, b: string) {
    if b == [] then false
    else if a == [] then true
    else if a[0] != b[0] then a[0] < b[0]
    else Less(a[1..], b[1..])
  }

  predicate StrictlyAscending(s: seq<string>) {
    forall i, j :: 0 <= i < j < |s| ==> Less(s[i], s[j])
  }

  lemma {:induction false} LessIrreflexive(a: string)
    ensures !Less(a, a)
  {
    if a != [] {
      LessIrreflexive(a[1..]);
    }
  }

  lemma {:induction false} LessTransitive(a: string, b: string, c: string)
    requires Less(a, b) && Less(b, c)
    ensures Less(a, c)
  {
    if a != [] && a[0] == b[0] && b[0] == c[0] {
      LessTransitive(a[1..], b[1..], c[1..]);
    }
  }

  lemma {:induction false} LessTotal(a: string, b: string)
    requires a != b
    ensures Less(a, b) || Less(b, a)
  {
    if a != [] && b != [] && a[0] == b[0] {
      assert a == [a[0]] + a[1..] && b == [b[0]] + b[1..];
      LessTotal(a[1..], b[1..]);
    }
  }

  lemma PrependSmallest(x: string, s: seq<string>)
    requires StrictlyAscending(s) && s != [] && Less(x, s[0])
    ensures StrictlyAscending([x] + s)
  {
    forall j | 0 < j < |s| ensures Less(x, s[j]) {
      LessTransitive(x, s[0], s[j]);
    }
  }

  /** std::set<std::string>::insert on the set's ascending sequence of elements. */
  function SetInsert(s: seq<string>, x: string): (r: seq<string>)
    requires StrictlyAscending(s)
    ensures StrictlyAscending(r)
    ensures forall c :: c in r <==> c in s || c == x
  {
    if s == [] then [x]
    else if x == s[0] then s
    else if Less(x, s[0]) then
      PrependSmallest(x, s);
      [x] + s
    else
      LessTotal(x, s[0]);
      var rest := SetInsert(s[1..], x);
      assert forall c <- rest :: Less(s[0], c);
      [s[0]] + rest
  }

  /** `n` copies of the list `x`. */
  function Repeat(x: seq<Transaction>, n: nat): (r: seq<seq<Transaction>>)
    ensures |r| == n && forall i :: 0 <= i < n ==> r[i] == x
  {
    seq(n, _ => x)
  }

  class TransactionManager {
    /** The owned store; the constructor always creates it. */
    var handler: DatabaseHandler
    /** The cached list of records, as the store last listed them. */
    var transactions: seq<Transaction>
    var observers: seq<ObserverId>
    /** Every observer call made so far, in order. */
    var notified: seq<ObserverId>
    /** The cached list as each of those calls found it: observers re-read the cache. */
    ghost var seen: seq<seq<Transaction>>

    ghost predicate Valid()
      reads this, handler
    {
      handler.Valid()
    }

    /**
     * Creates the store for `dbPath` and opens it; when opening succeeds the
     * cache is loaded. The file's table and the outcome of every statement
     * are inputs.
     */
    constructor (dbPath: string, stored: seq<Row>, storedNext: int,
                 openSucceeded: bool, handleReturned: bool, created: bool, listed: bool)
      requires TableWellFormed(stored, storedNext)
      requires openSucceeded ==> handleReturned
      ensures Valid() && fresh(handler)
      ensures handler.path == dbPath && handler.rows == stored && handler.nextId == storedNext
      ensures IsInitialized() == handleReturned
      ensures observers == [] && notified == [] && seen == []
      ensures openSucceeded && created && listed ==> IsListing(transactions, stored, Everything)
      ensures !(openSucceeded && created && listed) ==> transactions == []
    {
      handler := new DatabaseHandler(dbPath);
      transactions := [];
      observers := [];
      notified := [];
      seen := [];
      new;
      var ok := handler.Initialize(stored, storedNext, openSucceeded, handleReturned, created);
      if ok {
        LoadTransactions(listed);
      }
    }

    /** The cached list itself; it reads only the manager's own fields, never the store. */
    function GetTransactions(): (ts: seq<Transaction>)
      reads this
      ensures ts == transactions
    {
      transactions
    }

    function IsInitialized(): (r: bool)
      reads this, handler
      ensures r == handler.connected
    {
      handler.IsConnected()
    }

    /** Replaces the cache with the store's full listing; an unprepared listing leaves it empty. */
    method LoadTransactions(listed: bool)
      requires Valid()
      modifies this`transactions
      ensures listed ==> IsListing(transactions, handler.rows, Everything)
      ensures !listed ==> transactions == []
    {
      transactions := handler.GetAllTransactions(listed);
    }

    /** Calls every registered observer once, in registration order. */
    method NotifyObservers()
      modifies this`notified, this`seen
      ensures notified == old(notified) + observers
      ensures seen == old(seen) + Repeat(transactions, |observers|)
    {
      for i := 0 to |observers|
        invariant notified == old(notified) + observers[..i]
        invariant seen == old(seen) + Repeat(transactions, i)
      {
        notified := notified + [observers[i]];
        seen := seen + [transactions];
      }
    }

    method RegisterObserver(observer: ObserverId)
      modifies this`observers
      ensures observers == old(observers) + [observer]
    {
      observers := observers + [observer];
    }

    /** Removal is not implemented: the observer list stays as it is. */
    method UnregisterObserver(observer: ObserverId)
      ensures observers == old(observers) && notified == old(notified) && seen == old(seen)
    {
    }

    method RefreshData(listed: bool)
      requires Valid()
      modifies this`transactions, this`notified, this`seen
      ensures listed ==> IsListing(transactions, handler.rows, Everything)
      ensures !listed ==> transactions == []
      ensures notified == old(notified) + observers
      ensures seen == old(seen) + Repeat(transactions, |observers|)
    {
      LoadTransactions(listed);
      NotifyObservers();
    }

    /**
     * Adds a record dated `now`. Invalid input is refused before the store
     * is called; otherwise the store inserts it (`written` is the outcome),
     * and on success the cache is reloaded (`listed` is the listing's
     * outcome) and the observers are called.
     */
    method AddTransaction(description: string, amount: real, category: string, kind: TransactionType,
                          now: int, written: bool, listed: bool) returns (ok: bool)
      requires Valid()
      modifies this`transactions, this`notified, this`seen, handler`rows, handler`nextId, handler`issued
      ensures Valid()
      ensures ok == (Acceptable(description, amount, category) && written)
      ensures ok ==> old(handler.nextId) !in old(handler.issued)
      ensures ok ==> handler.issued == old(handler.issued) + {old(handler.nextId)}
      ensures ok ==> handler.rows == old(handler.rows) + [Row(old(handler.nextId), description, amount, category, TypeCode(kind), now)]
      ensures ok ==> handler.nextId == old(handler.nextId) + 1
      ensures ok ==> notified == old(notified) + observers
      ensures ok ==> seen == old(seen) + Repeat(transactions, |observers|)
      ensures ok ==> if listed then IsListing(transactions, handler.rows, Everything) else transactions == []
      ensures ok && listed ==> Transaction(old(handler.nextId), description, amount, category, kind, now) in transactions
      ensures !ok ==> unchanged(handler) && transactions == old(transactions) && notified == old(notified) && seen == old(seen)
    {
      if !Acceptable(description, amount, category) {
        return false;
      }
      var candidate := GetNextId();
      var t := Transaction(candidate, description, amount, category, kind, now);
      ghost var newId := handler.nextId;
      var stored := handler.AddTransaction(t, written);
      if !stored {
        return false;
      }
      LoadTransactions(listed);
      if listed {
        var row := ToRow(newId, t);
        assert row == handler.rows[|handler.rows| - 1];
        ListedIff(transactions, handler.rows, Everything, t.(id := newId));
      }
      NotifyObservers();
      ok := true;
    }

    /**
     * Replaces the five non-id fields of the record `id`, dating it `now`.
     * The validation is the same as for an addition; a missing id is not an
     * error.
     */
    method UpdateTransaction(id: int, description: string, amount: real, category: string, kind: TransactionType,
                             now: int, written: bool, listed: bool) returns (ok: bool)
      requires Valid()
      modifies this`transactions, this`notified, this`seen, handler`rows
      ensures Valid()
      ensures ok == (Acceptable(description, amount, category) && written)
      ensures ok ==> handler.rows == Assign(old(handler.rows), IdIs(id), Transaction(id, description, amount, category, kind, now))
      ensures ok ==> notified == old(notified) + observers
      ensures ok ==> seen == old(seen) + Repeat(transactions, |observers|)
      ensures ok ==> if listed then IsListing(transactions, handler.rows, Everything) else transactions == []
      ensures ok && listed && (exists r <- old(handler.rows) :: r.id == id) ==>
        Transaction(id, description, amount, category, kind, now) in transactions
      ensures !ok ==> handler.rows == old(handler.rows) && transactions == old(transactions) && notified == old(notified) && seen == old(seen)
    {
      if !Acceptable(description, amount, category) {
        return false;
      }
      var t := Transaction(id, description, amount, category, kind, now);
      ghost var before := handler.rows;
      var stored := handler.UpdateTransaction(t, written);
      if !stored {
        return false;
      }
      LoadTransactions(listed);
      if listed && exists r <- before :: r.id == id {
        var k :| 0 <= k < |before| && before[k].id == id;
        AssignById(before, t, k);
        assert handler.rows[k] in handler.rows;
        ListedIff(transactions, handler.rows, Everything, t);
      }
      NotifyObservers();
      ok := true;
    }

    /** Deletes the record `id`; there is no validation, and a missing id is not an error. */
    method DeleteTransaction(id: int, written: bool, listed: bool) returns (ok: bool)
      requires Valid()
      modifies this`transactions, this`notified, this`seen, handler`rows
      ensures Valid()
      ensures ok == written
      ensures handler.rows == if ok then Remove(old(handler.rows), IdIs(id)) else old(handler.rows)
      ensures ok ==> notified == old(notified) + observers
      ensures ok ==> seen == old(seen) + Repeat(transactions, |observers|)
      ensures ok ==> if listed then IsListing(transactions, handler.rows, Everything) else transactions == []
      ensures ok && listed ==> forall t <- transactions :: t.id != id
      ensures !ok ==> transactions == old(transactions) && notified == old(notified) && seen == old(seen)
    {
      var stored := handler.DeleteTransaction(id, written);
      if !stored {
        return false;
      }
      LoadTransactions(listed);
      if listed {
        forall t | t in transactions ensures t.id != id {
          ListedIff(transactions, handler.rows, Everything, t);
        }
      }
      NotifyObservers();
      ok := true;
    }

    method GetTransactionsByCategory(category: string, prepared: bool) returns (ts: seq<Transaction>)
      requires Valid()
      ensures !prepared ==> ts == []
      ensures prepared ==> IsListing(ts, handler.rows, CategoryIs(category))
    {
      ts := handler.GetTransactionsByCategory(category, prepared);
    }

    method GetTransactionsByType(kind: TransactionType, prepared: bool) returns (ts: seq<Transaction>)
      requires Valid()
      ensures !prepared ==> ts == []
      ensures prepared ==> IsListing(ts, handler.rows, TypeIs(TypeCode(kind)))
    {
      ts := handler.GetTransactionsByType(kind, prepared);
    }

    /** The store's live income sum. */
    method GetTotalIncome(prepared: bool) returns (total: real)
      requires Valid()
      ensures total == if prepared then Total(Select(handler.rows, TypeIs(0))) else 0.0
    {
      total := handler.GetTotalByType(Income, prepared);
    }

    /** The store's live expense sum. */
    method GetTotalExpenses(prepared: bool) returns (total: real)
      requires Valid()
      ensures total == if prepared then Total(Select(handler.rows, TypeIs(1))) else 0.0
    {
      total := handler.GetTotalByType(Expense, prepared);
    }

    /** Income minus expenses, each asked of the store; when both sums are read it is the net value of the table. */
    method GetBalance(incomePrepared: bool, expensesPrepared: bool) returns (balance: real)
      requires Valid()
      ensures balance == (if incomePrepared then Total(Select(handler.rows, TypeIs(0))) else 0.0)
                       - (if expensesPrepared then Total(Select(handler.rows, TypeIs(1))) else 0.0)
      ensures incomePrepared && expensesPrepared ==> balance == Net(DecodeAll(handler.rows))
    {
      var income := GetTotalIncome(incomePrepared);
      var expenses := GetTotalExpenses(expensesPrepared);
      balance := income - expenses;
      BalanceIsNet(handler.rows);
    }

    method GetTotalByCategory(category: string, prepared: bool) returns (total: real)
      requires Valid()
      ensures total == if prepared then Total(Select(handler.rows, CategoryIs(category))) else 0.0
    {
      total := handler.GetTotalByCategory(category, prepared);
    }

    /** The distinct categories of the cached records, in ascending order, without asking the store. */
    method GetCategories() returns (categories: seq<string>)
      ensures StrictlyAscending(categories)
      ensures forall c :: c in categories <==> c in CategoriesOf(transactions)
    {
      categories := [];
      for i := 0 to |transactions|
        invariant StrictlyAscending(categories)
        invariant forall c :: c in categories <==> exists j :: 0 <= j < i && transactions[j].category == c
      {
        categories := SetInsert(categories, transactions[i].category);
      }
    }

    /** One more than the largest cached id, or 1 when no cached id is positive. */
    method GetNextId() returns (next: int)
      ensures next >= 1
      ensures forall t <- transactions :: t.id < next
      ensures next == 1 || exists t <- transactions :: t.id == next - 1
    {
      if |transactions| == 0 {
        return 1;
      }
      var maxId := 0;
      for i := 0 to |transactions|
        invariant maxId >= 0
        invariant forall j :: 0 <= j < i ==> transactions[j].id <= maxId
        invariant maxId == 0 || exists j :: 0 <= j < i && transactions[j].id == maxId
      {
        if transactions[i].id > maxId {
          maxId := transactions[i].id;
        }
      }
      next := maxId + 1;
    }
  }

  /** A client: on a new, empty table, a paycheck dated `now` and then the rent dated a second later are added. */
  method PaycheckThenRent(now: int) returns (m: TransactionManager)
    ensures m.Valid() && fresh(m) && fresh(m.handler)
    ensures m.handler.rows == [Row(1, "Paycheck", 2000.0, "Salary", 0, now), Row(2, "Rent", 1200.0, "Housing", 1, now + 1)]
    ensures IsListing(m.transactions, m.handler.rows, Everything)
  {
    m := new TransactionManager("finance_tracker.db", [], 1, true, true, true, true);
    var added := m.AddTransaction("Paycheck", 2000.0, "Salary", Income, now, true, true);
    assert added;
    added := m.AddTransaction("Rent", 1200.0, "Housing", Expense, now + 1, true, true);
    assert added;
  }

  /** What the user interface then shows: the totals, the list newest first, and the one housing entry. */
  method PaycheckThenRentTotals(now: int)
  {
    var m := PaycheckThenRent(now);
    var paycheck := Row(1, "Paycheck", 2000.0, "Salary", 0, now);
    var rent := Row(2, "Rent", 1200.0, "Housing", 1, now + 1);
    TwoRows(paycheck, rent);

    var income := m.GetTotalIncome(true);
    var expenses := m.GetTotalExpenses(true);
    var balance := m.GetBalance(true, true);
    assert income == 2000.0 && expenses == 1200.0 && balance == 800.0;

    var all := m.GetTransactions();
    TwoRowListing(all, paycheck, rent);
    assert all == [DecodeRow(rent), DecodeRow(paycheck)];

    var housing := m.GetTransactionsByCategory("Housing", true);
    ListedIff(housing, [paycheck, rent], CategoryIs("Housing"), DecodeRow(rent));
    assert housing == [DecodeRow(rent)];
  }

  lemma TwoRows(income: Row, expense: Row)
    requires income.typeCode == 0 && expense.typeCode == 1 && income.category != expense.category
    ensures Select([income, expense], TypeIs(0)) == [income]
    ensures Select([income, expense], TypeIs(1)) == [expense]
    ensures Select([income, expense], CategoryIs(expense.category)) == [expense]
    ensures Total([income]) == income.amount && Total([expense]) == expense.amount
  {
    var both := [income, expense];
    assert both[1..] == [expense] && [expense][1..] == [] && [income][1..] == [];
    var ws := [TypeIs(0), TypeIs(1), CategoryIs(expense.category)];
    forall w <- ws ensures Select(both, w) == (if Matches(w, income) then [income] else []) + (if Matches(w, expense) then [expense] else []) {
      assert Select(both, w) == (if Matches(w, income) then [income] else []) + Select([expense], w);
      assert Select([expense], w) == (if Matches(w, expense) then [expense] else []) + Select([], w);
    }
    assert ws[0] in ws && ws[1] in ws && ws[2] in ws;
  }

  lemma TwoRowListing(ts: seq<Transaction>, older: Row, newer: Row)
    requires IsListing(ts, [older, newer], Everything) && older.date < newer.date
    ensures ts == [DecodeRow(newer), DecodeRow(older)]
  {
    AllListingIsEveryRow(ts, [older, newer]);
    assert DecodeAll([older, newer]) == [DecodeRow(older), DecodeRow(newer)];
    assert |ts| == 2;
    assert ts[0] in multiset(ts) && ts[1] in multiset(ts);
  }
}
