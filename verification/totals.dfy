/**
 `calculateTotals`: the income sum, the expense sum and the balance, always
 over the whole record list.
 */
module Totals {
  import opened Seqs
  import opened Ledger

  datatype Totals = Totals(income: real, expense: real, balance: real)

  /** `reduce((sum, t) => sum + t.amount, 0)`: a left fold, adding from the front. */
  function SumAmounts(txs: seq<Tx>): real
  {
    if txs == [] then 0.0 else SumAmounts(txs[..|txs| - 1]) + txs[|txs| - 1].amount
  }

  /** The predicate of the per-kind filter in `calculateTotals`. */
  function KindIs(k: Kind): Tx -> bool {
    (t: Tx) => t.kind == k
  }

  /** `transactions.filter(t => t.type === k)`. */
  function OfKind(txs: seq<Tx>, k: Kind): (r: seq<Tx>)
    ensures forall t :: t in r <==> t in txs && t.kind == k
    ensures forall t: Tx :: t.kind == k ==> multiset(r)[t] == multiset(txs)[t]
    ensures IsSubsequence(r, txs)
  {
    Filter(txs, KindIs(k))
  }

  /** `calculateTotals`, before the amounts are formatted as currency. */
  function ComputeTotals(txs: seq<Tx>): (r: Totals)
    ensures r.income == KindTotal(txs, Income)
    ensures r.expense == KindTotal(txs, Expense)
    ensures r.balance == NetFlow(txs)
  {
    SumOfKind(txs, Income);
    SumOfKind(txs, Expense);
    NetFlowSplits(txs);
    var income := SumAmounts(OfKind(txs, Income));
    var expense := SumAmounts(OfKind(txs, Expense));
    Totals(income, expense, income - expense)
  }

  // Reference definitions: one pass over the list, no intermediate filter.

  /** The amounts of the records of kind `k`, added up. */
  function KindTotal(txs: seq<Tx>, k: Kind): real
  {
    if txs == [] then 0.0
    else KindTotal(txs[..|txs| - 1], k) + (if txs[|txs| - 1].kind == k then txs[|txs| - 1].amount else 0.0)
  }

  /** What a record does to the balance: income adds its amount, expense subtracts it. */
  function Signed(t: Tx): real {
    match t.kind
    case Income => t.amount
    case Expense => -t.amount
  }

  /** The net effect of all records on the balance. */
  function NetFlow(txs: seq<Tx>): real
  {
    if txs == [] then 0.0 else NetFlow(txs[..|txs| - 1]) + Signed(txs[|txs| - 1])
  }

  lemma {:induction false} SumAppend(a: seq<Tx>, b: seq<Tx>)
    ensures SumAmounts(a + b) == SumAmounts(a) + SumAmounts(b)
    decreases |b|
  {
    if b == [] {
      assert a + b == a;
    } else {
      var b' := b[..|b| - 1];
      assert (a + b)[..|a + b| - 1] == a + b';
      SumAppend(a, b');
    }
  }

  /** Filter-then-reduce equals the one-pass per-kind total. */
  lemma {:induction false} SumOfKind(txs: seq<Tx>, k: Kind)
    ensures SumAmounts(OfKind(txs, k)) == KindTotal(txs, k)
    decreases |txs|
  {
    if txs != [] {
      var init, last := txs[..|txs| - 1], txs[|txs| - 1];
      assert txs == init + [last];
      FilterAppend(init, [last], KindIs(k));
      var tail := Filter([last], KindIs(k));
      SumAppend(Filter(init, KindIs(k)), tail);
      SumOfKind(init, k);
      SingleSum(last, k);
    }
  }

  /** The per-kind sum of a one-record list. */
  lemma SingleSum(t: Tx, k: Kind)
    ensures SumAmounts(Filter([t], KindIs(k))) == if t.kind == k then t.amount else 0.0
  {
    var r := Filter([t], KindIs(k));
    assert [t][1..] == [];
    if t.kind == k {
      assert r == [t];
      assert [t][..0] == [];
    } else {
      assert r == [];
    }
  }

  /** Income total minus expense total is the net effect of all records. */
  lemma {:induction false} NetFlowSplits(txs: seq<Tx>)
    ensures KindTotal(txs, Income) - KindTotal(txs, Expense) == NetFlow(txs)
    decreases |txs|
  {
    if txs != [] {
      NetFlowSplits(txs[..|txs| - 1]);
    }
  }

  /**
   Appending a record raises exactly one of the two sums, the one of its kind,
   by its amount, and moves the balance by its signed amount.
   */
  lemma AppendRaisesOneTotal(txs: seq<Tx>, t: Tx)
    ensures ComputeTotals(txs + [t]).income == ComputeTotals(txs).income + (if t.kind == Income then t.amount else 0.0)
    ensures ComputeTotals(txs + [t]).expense == ComputeTotals(txs).expense + (if t.kind == Expense then t.amount else 0.0)
    ensures ComputeTotals(txs + [t]).balance == ComputeTotals(txs).balance + Signed(t)
  {
    assert (txs + [t])[..|txs|] == txs;
  }

  /** With positive amounts neither sum can be negative. */
  lemma {:induction false} TotalsNonNegative(txs: seq<Tx>)
    requires forall i :: 0 <= i < |txs| ==> txs[i].amount > 0.0
    ensures ComputeTotals(txs).income >= 0.0
    ensures ComputeTotals(txs).expense >= 0.0
  {
    KindTotalNonNegative(txs, Income);
    KindTotalNonNegative(txs, Expense);
  }

  lemma {:induction false} KindTotalNonNegative(txs: seq<Tx>, k: Kind)
    requires forall i :: 0 <= i < |txs| ==> txs[i].amount > 0.0
    ensures KindTotal(txs, k) >= 0.0
    decreases |txs|
  {
    if txs != [] {
      KindTotalNonNegative(txs[..|txs| - 1], k);
    }
  }
}
