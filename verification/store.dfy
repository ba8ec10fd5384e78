/**
 The page's event handlers as pure transitions. Browser inputs become
 parameters: the raw description text, the parsed amount, the checked type,
 the clock reading `Date.now()` (`freshId`) and the answer to `confirm`.
 */
module Store {
  import opened Wrappers
  import opened Text
  import opened Seqs
  import opened Ledger

  /** Result of a submission: the next state and whether the validation alert was raised. */
  datatype Submitted = Submitted(state: State, alerted: bool)

  /** Result of an edit click: the next state and the record used to fill the form. */
  datatype Edited = Edited(state: State, prefill: Option<Tx>)

  /** The radio-selected list filter. */
  datatype ListFilter = All | Only(kind: Kind)

  /**
   `transactions.map((t: Tx) => t.id === id ? {...t, desc, amount, type} : t)`:
   every record carrying `id` takes the new fields and keeps its id.
   */
  function UpdateId(txs: seq<Tx>, id: int, desc: string, amount: real, kind: Kind): (r: seq<Tx>)
    ensures |r| == |txs|
    ensures forall i :: 0 <= i < |txs| && txs[i].id == id ==> r[i] == Tx(id, desc, amount, kind)
    ensures forall i :: 0 <= i < |txs| && txs[i].id != id ==> r[i] == txs[i]
  {
    if txs == [] then []
    else
      var head := if txs[0].id == id then Tx(id, desc, amount, kind) else txs[0];
      var r := [head] + UpdateId(txs[1..], id, desc, amount, kind);
      assert forall i :: 1 <= i < |txs| ==> r[i] == UpdateId(txs[1..], id, desc, amount, kind)[i - 1];
      r
  }

  /** The predicate of `deleteTransaction`'s filter: the record does not carry `id`. */
  function IdIsNot(id: int): Tx -> bool {
    (t: Tx) => t.id != id
  }

  /** `transactions.filter(t => t.id !== id)`. */
  function RemoveId(txs: seq<Tx>, id: int): (r: seq<Tx>)
    ensures !HasId(r, id)
    ensures forall t: Tx :: t.id != id ==> multiset(r)[t] == multiset(txs)[t]
    ensures IsSubsequence(r, txs)
  {
    var r := Filter(txs, IdIsNot(id));
    assert forall i :: 0 <= i < |r| ==> r[i] in r;
    r
  }

  /** Whether `renderList` shows `t` under filter `f`: `filter === "all" ? true : t.type === filter`. */
  predicate Shows(f: ListFilter, t: Tx) {
    match f
    case All => true
    case Only(k) => t.kind == k
  }

  function ShownBy(f: ListFilter): Tx -> bool {
    (t: Tx) => Shows(f, t)
  }

  /** The filter step of `renderList`: the records shown under `f`, in list order. */
  function Visible(txs: seq<Tx>, f: ListFilter): (r: seq<Tx>)
    ensures f.All? ==> r == txs
    ensures forall t :: t in r ==> t in txs && Shows(f, t)
    ensures forall t :: Shows(f, t) ==> multiset(r)[t] == multiset(txs)[t]
    ensures IsSubsequence(r, txs)
  {
    FilterKeepsAll(txs, ShownBy(f));
    Filter(txs, ShownBy(f))
  }

  /** The add/update handler `addTransaction`, followed by its `resetForm`. */
  function Submit(s: State, rawDesc: string, amount: Number, kind: Kind, freshId: int): (r: Submitted)
    ensures r.alerted <==> !Valid(Trim(rawDesc), amount)
    ensures r.alerted ==> r.state == s
    ensures !r.alerted ==> r.state.editId == None
    ensures !r.alerted && !Editing(s) ==>
              && |r.state.txs| == |s.txs| + 1
              && r.state.txs[..|s.txs|] == s.txs
              && r.state.txs[|s.txs|] == Tx(freshId, Trim(rawDesc), amount.value, kind)
    ensures !r.alerted && Editing(s) ==>
              && |r.state.txs| == |s.txs|
              && forall i :: 0 <= i < |s.txs| ==>
                   && r.state.txs[i].id == s.txs[i].id
                   && (s.txs[i].id == s.editId.value ==>
                         r.state.txs[i] == Tx(s.txs[i].id, Trim(rawDesc), amount.value, kind))
                   && (s.txs[i].id != s.editId.value ==> r.state.txs[i] == s.txs[i])
  {
    var desc := Trim(rawDesc);
    if !Valid(desc, amount) then
      Submitted(s, true)
    else if Editing(s) then
      Submitted(State(UpdateId(s.txs, s.editId.value, desc, amount.value, kind), None), false)
    else
      var txs := s.txs + [Tx(freshId, desc, amount.value, kind)];
      assert txs[..|s.txs|] == s.txs;
      Submitted(State(txs, None), false)
  }

  /**
   The edit button handler `editTransaction(id)`. The source sets `editId`
   before reading the found record, so an id with no record still enters
   edit mode; `prefill` is then `None`, where the source throws a TypeError.
   */
  function Edit(s: State, id: int): (r: Edited)
    ensures r.state.txs == s.txs
    ensures r.state.editId == Some(id)
    ensures r.prefill == Find(s.txs, id)
    ensures r.prefill.Some? <==> HasId(s.txs, id)
    ensures r.prefill.Some? ==> r.prefill.value in s.txs && r.prefill.value.id == id
  {
    var found := Find(s.txs, id);
    assert found.Some? ==> found.value in s.txs;
    Edited(s.(editId := Some(id)), found)
  }

  /** The reset button handler `resetForm`: leaves edit mode, keeps the list. */
  function Reset(s: State): (r: State)
    ensures r.txs == s.txs
    ensures r.editId == None
    ensures !Editing(r)
  {
    s.(editId := None)
  }

  /**
   The delete button handler `deleteTransaction(id)`: nothing happens unless
   the user confirms; then every record carrying `id` goes, the others stay
   in order, and the edit mode is left as it was.
   */
  function Delete(s: State, id: int, confirmed: bool): (r: State)
    ensures !confirmed ==> r == s
    ensures r.editId == s.editId
    ensures confirmed ==> !HasId(r.txs, id)
    ensures confirmed ==> forall t: Tx :: t.id != id ==> multiset(r.txs)[t] == multiset(s.txs)[t]
    ensures IsSubsequence(r.txs, s.txs)
  {
    if !confirmed then
      assert IsSubsequence(s.txs, s.txs) by { SubsequenceReflexive(s.txs); }
      s
    else s.(txs := RemoveId(s.txs, id))
  }
}
