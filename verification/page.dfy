/**
 The page as a whole: what `renderList` displays, and the user actions wired
 to the handlers, applied one after another.
 */
module Page {
  import opened Text
  import opened Seqs
  import opened Ledger
  import opened Store
  import opened Totals

  /** What one `renderList` call puts on screen: rows, the empty-list placeholder and the totals. */
  datatype Rendered = Rendered(rows: seq<Tx>, placeholder: bool, totals: Totals)

  /** The records shown under the `income` or `expense` filter are the ones `calculateTotals` sums. */
  lemma VisibleKindIsOfKind(txs: seq<Tx>, k: Kind)
    ensures Visible(txs, Only(k)) == OfKind(txs, k)
  {
    FilterExtensional(txs, ShownBy(Only(k)), KindIs(k));
  }

  /**
   `renderList` under filter `f`. The rows are the filtered records in list
   order; the placeholder shows instead exactly when no record passes the
   filter, and the totals are those of the whole list whatever the
   filter: the sums of what the `income` and `expense` views would show.
   */
  function Render(s: State, f: ListFilter): (r: Rendered)
    ensures r.rows == Visible(s.txs, f)
    ensures r.placeholder <==> r.rows == []
    ensures r.placeholder <==> forall t :: t in s.txs ==> !Shows(f, t)
    ensures r.totals.income == SumAmounts(Visible(s.txs, Only(Income)))
    ensures r.totals.expense == SumAmounts(Visible(s.txs, Only(Expense)))
    ensures r.totals.balance == r.totals.income - r.totals.expense
  {
    VisibleKindIsOfKind(s.txs, Income);
    VisibleKindIsOfKind(s.txs, Expense);
    var rows := Visible(s.txs, f);
    assert rows != [] ==> rows[0] in rows;
    Rendered(rows, rows == [], ComputeTotals(s.txs))
  }

  /** A user action: a form submission, an edit, reset or delete click. */
  datatype Action =
    | SubmitForm(rawDesc: string, amount: Number, kind: Kind, freshId: int)
    | EditClick(id: int)
    | ResetClick
    | DeleteClick(id: int, confirmed: bool)

  /** The state after the handler of `a` runs. */
  function Apply(s: State, a: Action): State
  {
    match a
    case SubmitForm(d, n, k, clock) => Submit(s, d, n, k, clock).state
    case EditClick(id) => Edit(s, id).state
    case ResetClick => Reset(s)
    case DeleteClick(id, c) => Delete(s, id, c)
  }

  /**
   The clock reading a submission in idle mode stores as id is positive and
   not already in use. `Date.now()` does not promise this; it is the
   assumption under which ids stay distinct.
   */
  predicate FreshClock(s: State, a: Action) {
    a.SubmitForm? && !Editing(s) ==> a.freshId > 0 && !HasId(s.txs, a.freshId)
  }

  /** The actions applied in order. */
  function Run(s: State, acts: seq<Action>): State
    decreases |acts|
  {
    if acts == [] then s else Run(Apply(s, acts[0]), acts[1..])
  }

  /** Every submission along the run gets a fresh clock reading. */
  predicate FreshClocks(s: State, acts: seq<Action>)
    decreases |acts|
  {
    acts == [] || (FreshClock(s, acts[0]) && FreshClocks(Apply(s, acts[0]), acts[1..]))
  }
}
