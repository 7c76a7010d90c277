/** The record type of the ledger: one income or expense entry. */
module Model {

  /** The two directions of a ledger entry; `Income` is declared first. */
  datatype TransactionType = Income | Expense

  /** The integers the store may hold in its `type` column. */
  predicate IsTypeCode(n: int) {
    n == 0 || n == 1
  }

  /** The integer a type is stored as: its position in the declaration. */
  function TypeCode(t: TransactionType): (n: int)
    ensures IsTypeCode(n)
    ensures TypeOfCode(n) == t
  {
    match t
    case Income => 0
    case Expense => 1
  }

  /**
   * Reads a stored `type` column back into a type. Only 0 and 1 are ever
   * stored; any other code would read as `Expense`, which is also how
   * GetTypeString would show it.
   */
  function TypeOfCode(n: int): (t: TransactionType)
    ensures t == Income <==> n == 0
    ensures t == Expense <==> n != 0
  {
    if n == 0 then Income else Expense
  }

  /** Decoding a stored code and encoding it again gives back the code. */
  lemma CodeRoundTrip(n: int)
    requires IsTypeCode(n)
    ensures TypeCode(TypeOfCode(n)) == n
  {
  }

  /** A ledger entry. Amounts are reals and dates are whole seconds. */
  datatype Transaction = Transaction(
    id: int,
    description: string,
    amount: real,
    category: string,
    kind: TransactionType,
    date: int)
  {
    /** The display name of the entry's type. */
    function GetTypeString(): (s: string)
      ensures s == "Income" <==> kind == Income
      ensures s == "Expense" <==> kind == Expense
    {
      if kind == Income then "Income" else assert kind.Expense?; "Expense"
    }
  }

  /** The record the default constructor builds; `now` stands for the clock. */
  function DefaultTransaction(now: int): (t: Transaction)
    ensures t.id == 0 && t.amount == 0.0 && t.kind == Expense
    ensures t.description == "" && t.category == "" && t.date == now
  {
    Transaction(0, "", 0.0, "", Expense, now)
  }

  /** Most recent first: dates never increase along the sequence. */
  predicate ByDateDesc(ts: seq<Transaction>) {
    forall i, j :: 0 <= i < j < |ts| ==> ts[i].date >= ts[j].date
  }

  /** What an entry contributes to the balance: its amount, negated for an expense. */
  function Signed(t: Transaction): real {
    if t.kind == Income then t.amount else -t.amount
  }

  /** The net value of a list of entries, summed one entry at a time. */
  function Net(ts: seq<Transaction>): real {
    if ts == [] then 0.0 else Signed(ts[0]) + Net(ts[1..])
  }
}
