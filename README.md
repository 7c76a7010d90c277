# Personal finance ledger: store and manager

This project models the ledger layer of a single-user personal finance tracker
in Dafny. The user interface sits on top of this layer and is not modelled.
The layer has three parts:

- **`Model`** (`model.dfy`) is the record type. A `Transaction` holds an id, a
  description, an amount, a category, a `TransactionType` (`Income` or
  `Expense`) and a date. `TypeCode` gives the integer a type is stored as, and
  `GetTypeString` gives its display name. The source's full constructor is the
  datatype constructor `Transaction(...)` itself, which stores its six
  arguments unchanged. `DefaultTransaction` is the default constructor.
- **`Database`** (`database.dfy`) is the store. `DatabaseHandler` is a class
  over an abstract `transactions` table: a sequence of `Row`s, where the type
  column holds 0 or 1, plus the AUTOINCREMENT counter `nextId`. A ghost set
  `issued` holds the ids the table held when it was opened and every id
  inserted since, including those of rows deleted later. Ids used and
  deleted before the file was opened are not in it; they are only known to
  lie below the stored counter. Each method is one SQL
  statement:
  - an INSERT that binds every column except the id;
  - an UPDATE or DELETE `WHERE id = ?`;
  - a SELECT `ORDER BY date DESC`, optionally filtered by category or type;
  - a `SUM(amount)` with a filter.

  Whether a statement could be prepared and run is a boolean argument
  (`succeeds`, `prepared`). The `while (sqlite3_step(...) == SQLITE_ROW)` loop
  that reads a result is the method `ReadRows`. SQL's ORDER BY is
  `OrderByDateDesc`, and callers rely only on its contract: the dates never
  increase, and the result is a rearrangement of the input.
- **`ViewModel`** (`manager.dfy`) is the manager. `TransactionManager` owns
  three things: the handler, the cached list `transactions` and the observer
  list. Observers are opaque ids. The field `notified` records every observer
  call in order, and the ghost field `seen` records the cached list each
  call found, since the window's observer re-reads the cache. Add, update and delete follow the same protocol: validate,
  write to the store, reload the cache from the store's full listing, notify
  the observers in registration order, and return true. If the store write
  fails, the cache and the observers are left alone. Totals and the balance
  are live store sums. `GetCategories` and `GetNextId` read only the cache.

External inputs are parameters:
- the clock (`now`);
- the table already in the database file (`stored`, `storedNext`);
- the outcome of every SQLite call.

A method that takes one of these outcome flags is exact about both outcomes.

Behaviour of the code that a reader may not expect:
- Updating or deleting an id that no row has returns true, reloads the cache
  and notifies the observers. The code checks only that the statement
  completed.
- `GetCategories` returns the categories in ascending order, because it
  builds them in a `std::set`.
- Nothing fixes the order of records that share a date.
- The manager has no "not initialised" error. The handler always exists, and
  when opening the database fails, each later statement simply fails.
- An update sets the date to the current time. The record it builds takes the
  constructor's default date.
- If the reload after a successful write cannot be prepared, the cache ends
  up empty. `GetAllTransactions` returns an empty list in that case.

## Model

| member | source | states |
|---|---|---|
| `Model.TypeCode` | Model/Transaction.h:5-8 | A type is stored as 0 or 1, and decoding that integer gives back the same type. |
| `Model.CodeRoundTrip` | Model/Transaction.h:5-8 | Decoding the stored code 0 or 1 and encoding it again gives back the code. |
| `Model.Transaction.GetTypeString` | Model/Transaction.h:26-28 | The result is "Income" exactly for `Income` and "Expense" exactly for `Expense`. |
| `Model.DefaultTransaction` | Model/Transaction.h:19 | The default record has id 0, amount 0, type `Expense`, empty texts and the current time as its date. |
| `Model.TypeOfCode` | Database/DatabaseHandler.cpp:144 | The cast reads 0 as `Income` and 1 as `Expense`, the only codes this program stores. The model also reads any other code as `Expense`, where the cast would keep an unnamed enumeration value (see "## Left out"). |
| `Database.DecodeRow` | Database/DatabaseHandler.cpp:139-145 | A row is read back field by field. For a stored code 0 or 1, the record's type encodes back to the row's code. |
| `Database.RowRoundTrip` | Database/DatabaseHandler.cpp:139-145 | A row with a valid code, read back and written again under its own id, is the same row. |
| `Database.Select` | Database/DatabaseHandler.cpp:156 | Every row a WHERE clause selects is a row of the table that matches the clause. |
| `Database.Remove` | Database/DatabaseHandler.cpp:109 | Every row a DELETE leaves is a row of the table that does not match the clause. |
| `Database.FilterCount` | Database/DatabaseHandler.cpp:215 | Filtering by a clause keeps every copy of each matching row and no copy of any other row. This is the exact count behind SELECT, SUM and DELETE. |
| `Database.Total` | Database/DatabaseHandler.cpp:237 | SUM(amount) is never negative when no amount is, and with only positive amounts it is positive exactly when some row is summed. |
| `Database.DatabaseHandler.IsConnected` | Database/DatabaseHandler.h:32 | True exactly when a connection handle is held. It is the field `connected`, which stands for the non-null handle. |
| `Database.ToRow` | Database/DatabaseHandler.cpp:68-72 | An inserted or updated row holds the record's description, amount, category, type code and date. Reading the row back gives the record under the row's id. Text is kept whole; the source's cut at a NUL character is listed under "## Left out". |
| `Database.Assign` | Database/DatabaseHandler.cpp:81-85 | UPDATE keeps the number of rows and every row's id. A matching row holds a valid type code and reads back as the new record under its own id. Every other row is unchanged. |
| `Database.OrderByDateDesc` | Database/DatabaseHandler.cpp:128 | ORDER BY date DESC returns a rearrangement of its rows in which the dates never increase. |
| `Database.DatabaseHandler.constructor` | Database/DatabaseHandler.cpp:6-8 | A new handler keeps its path and has no connection. |
| `Database.DatabaseHandler.Initialize` | Database/DatabaseHandler.cpp:16-39 | The result is true exactly when both the open and the CREATE TABLE succeed. The connection handle can be set even when the result is false. The file's table becomes the handler's table. |
| `Database.DatabaseHandler.AddTransaction` | Database/DatabaseHandler.cpp:54-78 | On success, one row is appended. Its id is the counter, which exceeds every id ever issued, and the caller's id is ignored. The counter grows by one. On failure, nothing changes. |
| `Database.DatabaseHandler.UpdateTransaction` | Database/DatabaseHandler.cpp:80-106 | On success, the table is the UPDATE of the row with the record's id. The result is only the statement's outcome, so it is true even when no row matched. On failure, the table is unchanged. |
| `Database.DatabaseHandler.DeleteTransaction` | Database/DatabaseHandler.cpp:108-124 | On success, the table is the old table without the rows that have the id. The result is true even when no row matched. On failure, the table is unchanged. |
| `Database.ReadRows` | Database/DatabaseHandler.cpp:138-148 | The read loop returns, in cursor order, the record of each row the statement yields. |
| `Database.DatabaseHandler.Query` | Database/DatabaseHandler.cpp:126-152 | A SELECT gives each matching row's record exactly once, most recent first. An unprepared statement gives the empty list. |
| `Database.DatabaseHandler.GetAllTransactions` | Database/DatabaseHandler.cpp:126-152 | The result lists every row, most recent first, or is empty when the statement cannot be prepared. |
| `Database.DatabaseHandler.GetTransactionsByCategory` | Database/DatabaseHandler.cpp:154-182 | The result lists exactly the rows of that category, most recent first, or is empty when the statement cannot be prepared. |
| `Database.DatabaseHandler.GetTransactionsByType` | Database/DatabaseHandler.cpp:184-212 | The result lists exactly the rows whose type code is the given type's, most recent first, or is empty when the statement cannot be prepared. |
| `Database.DatabaseHandler.GetTotalByType` | Database/DatabaseHandler.cpp:214-234 | The result is the sum of the amounts of the rows of that type, or 0 when the statement cannot be prepared. |
| `Database.DatabaseHandler.GetTotalByCategory` | Database/DatabaseHandler.cpp:236-256 | The result is the sum of the amounts of the rows of that category, or 0 when the statement cannot be prepared. |
| `Database.ReadingSortedCursorIsListing` | Database/DatabaseHandler.cpp:138-151 | Reading the selected rows in date order, one by one, gives a listing of exactly those rows. |
| `Database.ListedIff` | Database/DatabaseHandler.cpp:156 | A listing contains a record exactly when some row matching the WHERE clause reads as that record. It has one entry per matching row. |
| `Database.AllListingIsEveryRow` | Database/DatabaseHandler.cpp:128 | The unfiltered listing holds the records of all rows, each exactly once. |
| `Database.AssignAbsent` | Database/DatabaseHandler.cpp:102-105 | An UPDATE of an id that no row has leaves the table unchanged. |
| `Database.AssignById` | Database/DatabaseHandler.cpp:95-100 | After an UPDATE by id, the matching row reads back as the new record, and every other row is unchanged. |
| `Database.RemoveAbsent` | Database/DatabaseHandler.cpp:119-123 | A DELETE of an id that no row has leaves the table unchanged. |
| `Database.RemoveExactlyOne` | Database/DatabaseHandler.cpp:109 | In a table with distinct ids, deleting a row's id removes that row once and keeps all the others. |
| `Database.TotalOfNoMatch` | Database/DatabaseHandler.cpp:227-230 | SUM over no matching row reads as 0. |
| `Database.TotalAfterInsert` | Database/DatabaseHandler.cpp:237 | An inserted row adds its amount to exactly the sums whose filter it matches. |
| `Database.IncomeAndExpensesCoverAll` | Database/DatabaseHandler.cpp:215 | The income sum and the expense sum together make the sum over all rows. |
| `Database.BalanceIsNet` | ViewModel/TransactionManager.cpp:95-97 | The income sum minus the expense sum is the net value of the stored records. Income counts as positive and expenses as negative. |
| `ViewModel.Acceptable` | ViewModel/TransactionManager.cpp:17 | Input is refused when the description is empty, when the category is empty, or when the amount is not positive. All other input is accepted. Update uses the same check at line 34. |
| `ViewModel.Less` | ViewModel/TransactionManager.cpp:108 | `std::string`'s `operator<`, which orders the set: lexicographic on character codes, with a proper prefix first. Its order laws are the next three rows. |
| `ViewModel.LessIrreflexive` | ViewModel/TransactionManager.cpp:108 | No string sorts before itself. |
| `ViewModel.LessTransitive` | ViewModel/TransactionManager.cpp:108 | The order is transitive. |
| `ViewModel.LessTotal` | ViewModel/TransactionManager.cpp:108 | Of two different strings, one sorts before the other, so the set's order is total. |
| `ViewModel.SetInsert` | ViewModel/TransactionManager.cpp:108-111 | Inserting into the ascending element sequence of a `std::set` keeps the sequence strictly ascending. Afterwards it holds exactly the old elements plus the new one. |
| `ViewModel.TransactionManager.constructor` | ViewModel/TransactionManager.cpp:6-13 | The constructor creates and opens the store. After a successful open it loads the full listing into the cache, and otherwise the cache is empty. `IsInitialized` reflects the connection handle. |
| `ViewModel.TransactionManager.GetTransactions` | ViewModel/TransactionManager.h:25 | The result is the cached list itself. Its frame is the manager's own fields, so it never consults the store. |
| `ViewModel.TransactionManager.IsInitialized` | ViewModel/TransactionManager.h:45 | True exactly when the store's connection handle is set. |
| `ViewModel.TransactionManager.LoadTransactions` | ViewModel/TransactionManager.cpp:138-142 | The cache becomes the store's full listing, or empty when the listing cannot be prepared. |
| `ViewModel.TransactionManager.NotifyObservers` | ViewModel/TransactionManager.cpp:132-136 | Every registered observer is called once, in registration order, and each call finds the current cache. |
| `ViewModel.TransactionManager.RegisterObserver` | ViewModel/TransactionManager.cpp:117-119 | The observer is appended to the list. |
| `ViewModel.TransactionManager.UnregisterObserver` | ViewModel/TransactionManager.cpp:121-125 | Nothing changes. |
| `ViewModel.TransactionManager.RefreshData` | ViewModel/TransactionManager.cpp:127-130 | The cache is reloaded and then the observers are called, whatever the store holds. Every call finds the reloaded cache. |
| `ViewModel.TransactionManager.AddTransaction` | ViewModel/TransactionManager.cpp:15-30 | The result is true exactly when the input is valid and the insert succeeds. Invalid input means the store is not called. On success, the cache is reloaded and then the observers are called, each finding the reloaded cache. The store gains the new row under a never-used id, which is added to the issued ids. When the reload's listing is read, the cache contains the new record under that id. Only the store's rows, counter and issued ids may change, so the connection and the path are kept. On failure, the store, the cache and the observer calls are unchanged. |
| `ViewModel.TransactionManager.UpdateTransaction` | ViewModel/TransactionManager.cpp:32-47 | The validation is the same as for an addition. On success, the store row with the id gets the new fields and the current date, the cache is reloaded, and then the observers are called, each finding the reloaded cache. When the reload's listing is read and a row has the id, the cache shows the new record. On failure, nothing changes. |
| `ViewModel.TransactionManager.DeleteTransaction` | ViewModel/TransactionManager.cpp:49-61 | There is no validation. The result is the store's outcome, so it is true even for an id that no row has. On success, the cache is reloaded and then the observers are called, each finding the reloaded cache. When the reload's listing is read, no cached record has the id. On failure, nothing changes. |
| `ViewModel.TransactionManager.GetTransactionsByCategory` | ViewModel/TransactionManager.cpp:63-69 | A live listing of exactly that category's rows, most recent first. |
| `ViewModel.TransactionManager.GetTransactionsByType` | ViewModel/TransactionManager.cpp:71-77 | A live listing of exactly that type's rows, most recent first. |
| `ViewModel.TransactionManager.GetTotalIncome` | ViewModel/TransactionManager.cpp:79-85 | The store's live sum over income rows, never the cache. |
| `ViewModel.TransactionManager.GetTotalExpenses` | ViewModel/TransactionManager.cpp:87-93 | The store's live sum over expense rows, never the cache. |
| `ViewModel.TransactionManager.GetBalance` | ViewModel/TransactionManager.cpp:95-97 | The result is the income total minus the expense total. When both are read, it equals the net value of the stored records. |
| `ViewModel.TransactionManager.GetTotalByCategory` | ViewModel/TransactionManager.cpp:99-105 | The store's live sum over that category's rows. |
| `ViewModel.TransactionManager.GetCategories` | ViewModel/TransactionManager.cpp:107-115 | The result holds each category in the cache exactly once, in strictly ascending string order, without asking the store. |
| `ViewModel.TransactionManager.GetNextId` | ViewModel/TransactionManager.cpp:144-157 | The result exceeds every cached id and is at least 1. It is either 1 or one more than a cached id, so it equals 1 + max(0, largest cached id). |

## Left out

- The SQLite C API is not modelled: opening, prepare, bind, step, finalize, `sqlite3_exec`, closing and the `std::cerr` messages. Each statement's outcome is a boolean argument. A step that fails in the middle of a listing, giving a partial list, is not modelled; a listing either succeeds whole or is empty.
- The outcome flags are not tied to the connection state. The model does not force statements on a missing connection to fail.
- Floating point is not modelled. Amounts are reals, so the rounding of `SUM` is absent. A NaN amount, which passes the source's `amount <= 0` check, is absent too.
- Ids are unbounded integers. This leaves out overflow of `maxId + 1`, the 32-bit truncation of `sqlite3_column_int` on the id, and running out of AUTOINCREMENT ids.
- The clock (`std::time(nullptr)`) is the parameter `now`. `GetDateString` depends on the time zone and is not part of this model.
- The table in an existing database file is an input. It must be one this program could have written: type codes 0 or 1, distinct ids, all ids below the counter.
- Model.TypeOfCode: type codes other than 0 and 1 never occur in a well-formed table, and the model reads any such code as `Expense`. The source's `static_cast<TransactionType>` would keep an unnamed value instead. `GetTypeString` shows that value as "Expense", but it differs from `TransactionType::Expense` and would be bound back as its own code.
- Database.ToRow: text is stored and compared whole, including any NUL character. The source binds every text with length `-1` and reads it back through a C string, so it cuts a description or category at the first NUL. A description such as "\0x" passes the non-empty check and would be stored and reloaded as "". A category filter "Housing\0x" would select and sum the "Housing" rows. The model keeps such values whole, so `ToRow`'s round trip, the `CategoryIs` filter of `GetTransactionsByCategory` and `GetTotalByCategory`, and the records the manager's add and update put in the cache hold only for text without NUL.
- Observers are opaque ids, and calling one appends its id to `notified`. The closure the window registers, which re-enters the manager, is not modelled.
- The `!dbHandler_` guards are not modelled, because they can never fire: the constructor always creates the handler, and nothing resets it.
- The destructor, `main.cpp` and the wxWidgets window (`View/MainWindow.*`) are not part of this model.
- No tie order is stated for records with equal dates.
- The value of `GetNextId` is computed when adding, as in the source, and then ignored by the INSERT. No link between it and the stored id is stated.
