/**
 The tracker's data: transaction records, the edit-mode flag and the
 submission guard.
 */
module Ledger {
  import opened Wrappers
  import opened Text

  /** The `type` radio value of a record. */
  datatype Kind = Income | Expense

  /**
   A JavaScript number as produced by unary `+` on the amount field: a finite
   value or NaN. Infinities and float rounding are not modelled.
   */
  datatype Number = Finite(value: real) | NaN

  /** One record `{id, desc, amount, type}`. */
  datatype Tx = Tx(id: int, desc: string, amount: real, kind: Kind)

  /**
   The page state: the ordered record list and `editId`, which is `null`
   (`None`) or the id last passed to the edit handler.
   */
  datatype State = State(txs: seq<Tx>, editId: Option<int>)

  /** The state at page load with nothing stored. */
  const Empty := State([], None)

  /**
   The source branches on `if (editId)`: JavaScript truthiness, so an
   edit id of 0 behaves exactly like `null`.
   */
  predicate Editing(s: State) {
    s.editId.Some? && s.editId.value != 0
  }

  /** JavaScript's `amount <= 0`; every comparison with NaN is false. */
  predicate AtMostZero(n: Number) {
    match n
    case Finite(v) => v <= 0.0
    case NaN => false
  }

  /** The guard `!(!desc || amount <= 0)` exactly as the source writes it. */
  predicate PassesGuardAsWritten(desc: string, amount: Number) {
    !(desc == [] || AtMostZero(amount))
  }

  /** The evidently intended guard: a non-empty description and a positive number. */
  predicate Valid(desc: string, amount: Number) {
    desc != [] && amount.Finite? && amount.value > 0.0
  }

  /** The as-written guard accepts a NaN amount that the intended guard refuses. */
  lemma NaNPassesGuardAsWritten()
    ensures PassesGuardAsWritten("rent", NaN)
    ensures !Valid("rent", NaN)
  {
  }

  /** On every finite amount the two guards agree: NaN is the only discrepancy. */
  lemma GuardsAgreeOnFiniteAmounts(desc: string, amount: Number)
    ensures Valid(desc, amount) ==> PassesGuardAsWritten(desc, amount)
    ensures PassesGuardAsWritten(desc, amount) && !Valid(desc, amount) <==> desc != [] && amount.NaN?
  {
  }

  predicate HasId(txs: seq<Tx>, id: int) {
    exists i :: 0 <= i < |txs| && txs[i].id == id
  }

  predicate UniqueIds(txs: seq<Tx>) {
    forall i, j :: 0 <= i < j < |txs| ==> txs[i].id != txs[j].id
  }

  /** A record every successful submission can produce: positive id and amount, trimmed non-empty text. */
  predicate GoodRecord(t: Tx) {
    t.id > 0 && t.amount > 0.0 && t.desc != [] && IsTrimmed(t.desc)
  }

  /** The invariant the handlers keep: good records with pairwise distinct ids. */
  predicate WellFormed(s: State) {
    UniqueIds(s.txs) && forall i :: 0 <= i < |s.txs| ==> GoodRecord(s.txs[i])
  }

  /** `transactions.find(t => t.id === id)`: the first record carrying `id`, if any. */
  function Find(txs: seq<Tx>, id: int): (r: Option<Tx>)
    ensures r.Some? <==> HasId(txs, id)
    ensures r.Some? ==> exists i :: 0 <= i < |txs| && txs[i] == r.value && r.value.id == id
                                    && forall j :: 0 <= j < i ==> txs[j].id != id
  {
    if txs == [] then None
    else if txs[0].id == id then Some(txs[0])
    else
      var r := Find(txs[1..], id);
      assert HasId(txs, id) ==> HasId(txs[1..], id) by {
        if HasId(txs, id) {
          var i :| 0 <= i < |txs| && txs[i].id == id;
          assert txs[1..][i - 1].id == id;
        }
      }
      assert r.Some? ==> exists i :: 0 <= i < |txs| && txs[i] == r.value && r.value.id == id
                                     && forall j :: 0 <= j < i ==> txs[j].id != id by {
        if r.Some? {
          var i :| 0 <= i < |txs[1..]| && txs[1..][i] == r.value && r.value.id == id
                   && forall j :: 0 <= j < i ==> txs[1..][j].id != id;
          assert txs[i + 1] == r.value;
          assert forall j :: 0 <= j < i + 1 ==> txs[j].id != id by {
            forall j | 0 <= j < i + 1 ensures txs[j].id != id {
              if j > 0 { assert txs[j] == txs[1..][j - 1]; }
            }
          }
        }
      }
      r
  }

  /** With distinct ids, the record `find` returns is the one at any index carrying that id. */
  lemma FindUnique(txs: seq<Tx>, i: int)
    requires UniqueIds(txs)
    requires 0 <= i < |txs|
    ensures Find(txs, txs[i].id) == Some(txs[i])
  {
  }
}
