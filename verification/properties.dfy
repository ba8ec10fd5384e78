/**
 Properties that relate several handler calls: the well-formedness
 invariant along any run, retrieval after add, in-place update after an
 edit click, and what a delete does to the list length.
 */
module Properties {
  import opened Wrappers
  import opened Text
  import opened Seqs
  import opened Ledger
  import opened Store
  import opened Totals
  import opened Page

  /** A subsequence of a list with distinct ids has distinct ids. */
  lemma {:induction false} SubsequenceKeepsUniqueIds(a: seq<Tx>, b: seq<Tx>)
    requires IsSubsequence(a, b)
    requires UniqueIds(b)
    ensures UniqueIds(a)
    decreases |b|
  {
    if a != [] {
      assert UniqueIds(b[1..]) by {
        forall i, j | 0 <= i < j < |b[1..]| ensures b[1..][i].id != b[1..][j].id {
          assert b[1..][i] == b[i + 1] && b[1..][j] == b[j + 1];
        }
      }
      if a[0] == b[0] && IsSubsequence(a[1..], b[1..]) {
        SubsequenceKeepsUniqueIds(a[1..], b[1..]);
        SubsequenceMembers(a[1..], b[1..]);
        forall i, j | 0 <= i < j < |a| ensures a[i].id != a[j].id {
          assert a[j] == a[1..][j - 1];
          if i > 0 {
            assert a[i] == a[1..][i - 1];
          } else {
            assert a[1..][j - 1] in a[1..];
            var m :| 0 <= m < |b[1..]| && b[1..][m] == a[j];
            assert b[m + 1] == a[j];
          }
        }
      } else {
        SubsequenceKeepsUniqueIds(a, b[1..]);
      }
    }
  }

  /** A valid submission from a well-formed state, with a fresh clock in idle mode, keeps it well-formed. */
  lemma SubmitPreservesWellFormed(s: State, rawDesc: string, amount: Number, kind: Kind, freshId: int)
    requires WellFormed(s)
    requires FreshClock(s, SubmitForm(rawDesc, amount, kind, freshId))
    ensures WellFormed(Submit(s, rawDesc, amount, kind, freshId).state)
  {
    var r := Submit(s, rawDesc, amount, kind, freshId);
    if !r.alerted {
      var t' := r.state.txs;
      if Editing(s) {
        forall i | 0 <= i < |t'| ensures GoodRecord(t'[i]) {
          assert GoodRecord(s.txs[i]);
        }
      } else {
        assert forall i :: 0 <= i < |s.txs| ==> t'[i] == s.txs[i];
        assert UniqueIds(t') by {
          forall i, j | 0 <= i < j < |t'| ensures t'[i].id != t'[j].id {
            if j == |s.txs| {
              assert !HasId(s.txs, freshId);
            }
          }
        }
      }
    }
  }

  /** Deleting from a well-formed state keeps it well-formed. */
  lemma DeletePreservesWellFormed(s: State, id: int, confirmed: bool)
    requires WellFormed(s)
    ensures WellFormed(Delete(s, id, confirmed))
  {
    var r := Delete(s, id, confirmed);
    SubsequenceKeepsUniqueIds(r.txs, s.txs);
    SubsequenceMembers(r.txs, s.txs);
    forall i | 0 <= i < |r.txs| ensures GoodRecord(r.txs[i]) {
      assert r.txs[i] in s.txs;
    }
  }

  /** One action keeps the invariant, given a fresh clock for an idle-mode submission. */
  lemma ApplyPreservesWellFormed(s: State, a: Action)
    requires WellFormed(s)
    requires FreshClock(s, a)
    ensures WellFormed(Apply(s, a))
  {
    match a
    case SubmitForm(d, n, k, clock) => SubmitPreservesWellFormed(s, d, n, k, clock);
    case EditClick(_) =>
    case ResetClick =>
    case DeleteClick(id, c) => DeletePreservesWellFormed(s, id, c);
  }

  /**
   Along any run of user actions in which every idle-mode submission gets a
   fresh positive clock reading, the list keeps distinct ids, positive
   amounts and trimmed non-empty descriptions.
   */
  lemma {:induction false} RunPreservesWellFormed(s: State, acts: seq<Action>)
    requires WellFormed(s)
    requires FreshClocks(s, acts)
    ensures WellFormed(Run(s, acts))
    decreases |acts|
  {
    if acts != [] {
      ApplyPreservesWellFormed(s, acts[0]);
      RunPreservesWellFormed(Apply(s, acts[0]), acts[1..]);
    }
  }

  /** The page starts well-formed when nothing is stored. */
  lemma EmptyIsWellFormed()
    ensures WellFormed(Empty)
    ensures ComputeTotals(Empty.txs) == Totals(0.0, 0.0, 0.0)
  {
  }

  /** After a valid idle-mode submission with an unused clock, the new record is found by its id. */
  lemma SubmitThenFind(s: State, rawDesc: string, amount: Number, kind: Kind, freshId: int)
    requires !Editing(s)
    requires Valid(Trim(rawDesc), amount)
    requires !HasId(s.txs, freshId)
    ensures Find(Submit(s, rawDesc, amount, kind, freshId).state.txs, freshId)
            == Some(Tx(freshId, Trim(rawDesc), amount.value, kind))
  {
    var t' := Submit(s, rawDesc, amount, kind, freshId).state.txs;
    assert t' == s.txs + [Tx(freshId, Trim(rawDesc), amount.value, kind)];
    FindAppendFresh(s.txs, Tx(freshId, Trim(rawDesc), amount.value, kind));
  }

  /** `find` reaches a record appended after a list that does not carry its id. */
  lemma {:induction false} FindAppendFresh(txs: seq<Tx>, t: Tx)
    requires !HasId(txs, t.id)
    ensures Find(txs + [t], t.id) == Some(t)
    decreases |txs|
  {
    if txs != [] {
      assert txs[0].id != t.id;
      assert (txs + [t])[1..] == txs[1..] + [t];
      assert !HasId(txs[1..], t.id) by {
        assert forall i :: 0 <= i < |txs[1..]| ==> txs[1..][i] == txs[i + 1];
      }
      FindAppendFresh(txs[1..], t);
    }
  }

  /**
   Clicking edit on a record of a well-formed list and then submitting valid
   input updates that record in place: same length, same id, new fields,
   every other record untouched, and the page back in idle mode.
   */
  lemma EditThenSubmitUpdates(s: State, id: int, rawDesc: string, amount: Number, kind: Kind, freshId: int)
    requires WellFormed(s)
    requires HasId(s.txs, id)
    requires Valid(Trim(rawDesc), amount)
    ensures var r := Submit(Edit(s, id).state, rawDesc, amount, kind, freshId).state;
            && |r.txs| == |s.txs|
            && Find(r.txs, id) == Some(Tx(id, Trim(rawDesc), amount.value, kind))
            && (forall i :: 0 <= i < |s.txs| && s.txs[i].id != id ==> r.txs[i] == s.txs[i])
            && r.editId == None
  {
    var e := Edit(s, id).state;
    var i :| 0 <= i < |s.txs| && s.txs[i].id == id;
    assert GoodRecord(s.txs[i]);
    assert Editing(e);
    var r := Submit(e, rawDesc, amount, kind, freshId).state;
    assert UniqueIds(r.txs) by {
      forall a, b | 0 <= a < b < |r.txs| ensures r.txs[a].id != r.txs[b].id {
        assert r.txs[a].id == s.txs[a].id && r.txs[b].id == s.txs[b].id;
      }
    }
    FindUnique(r.txs, i);
  }

  /**
   An edit mode whose id matches no record (the record was deleted meanwhile,
   or the edit click threw) swallows a valid submission: nothing is appended,
   nothing changes, and the page returns to idle.
   */
  lemma SubmitWithStaleEditIdChangesNothing(s: State, rawDesc: string, amount: Number, kind: Kind, freshId: int)
    requires Editing(s)
    requires !HasId(s.txs, s.editId.value)
    requires Valid(Trim(rawDesc), amount)
    ensures Submit(s, rawDesc, amount, kind, freshId).state == State(s.txs, None)
  {
    var r := Submit(s, rawDesc, amount, kind, freshId).state;
    assert forall i :: 0 <= i < |s.txs| ==> s.txs[i].id != s.editId.value;
  }

  /**
   Deleting the record that is being edited keeps the edit mode, so the
   next valid submission of the edit form is dropped: the list stays as the
   delete left it.
   */
  lemma DeleteWhileEditingDropsEdit(s: State, rawDesc: string, amount: Number, kind: Kind, freshId: int)
    requires Editing(s)
    requires Valid(Trim(rawDesc), amount)
    ensures var d := Delete(s, s.editId.value, true);
            Submit(d, rawDesc, amount, kind, freshId).state == State(d.txs, None)
  {
    var d := Delete(s, s.editId.value, true);
    SubmitWithStaleEditIdChangesNothing(d, rawDesc, amount, kind, freshId);
  }

  /**
   After the reset button a valid submission always inserts: whatever edit
   was pending, the list grows by exactly the new record.
   */
  lemma ResetThenSubmitAppends(s: State, rawDesc: string, amount: Number, kind: Kind, freshId: int)
    requires Valid(Trim(rawDesc), amount)
    ensures Submit(Reset(s), rawDesc, amount, kind, freshId).state
            == State(s.txs + [Tx(freshId, Trim(rawDesc), amount.value, kind)], None)
  {
    var r := Submit(Reset(s), rawDesc, amount, kind, freshId).state;
    assert r.txs == r.txs[..|s.txs|] + [r.txs[|s.txs|]];
  }

  /**
   The truthiness test on `editId`: after an edit click on id 0, a valid
   submission appends a new record instead of updating.
   */
  lemma EditOfZeroAppends(s: State, rawDesc: string, amount: Number, kind: Kind, freshId: int)
    requires Valid(Trim(rawDesc), amount)
    ensures var r := Submit(Edit(s, 0).state, rawDesc, amount, kind, freshId).state;
            r.txs == s.txs + [Tx(freshId, Trim(rawDesc), amount.value, kind)]
  {
    var r := Submit(Edit(s, 0).state, rawDesc, amount, kind, freshId).state;
    assert r.txs == r.txs[..|s.txs|] + [r.txs[|s.txs|]];
  }

  /** The predicate matching the records `deleteTransaction` removes. */
  function IdIs(id: int): Tx -> bool {
    (t: Tx) => t.id == id
  }

  /** A confirmed delete shortens the list by exactly the number of records carrying the id. */
  lemma DeleteDropsMatches(s: State, id: int)
    ensures |Delete(s, id, true).txs| == |s.txs| - Count(s.txs, IdIs(id))
  {
    CountSplit(s.txs, IdIsNot(id), IdIs(id));
  }

  /** With distinct ids, exactly one record carries an id that is present. */
  lemma {:induction false} UniqueIdCountsOnce(txs: seq<Tx>, id: int)
    requires UniqueIds(txs)
    ensures Count(txs, IdIs(id)) == if HasId(txs, id) then 1 else 0
    decreases |txs|
  {
    if txs != [] {
      assert UniqueIds(txs[1..]) by {
        forall i, j | 0 <= i < j < |txs[1..]| ensures txs[1..][i].id != txs[1..][j].id {
          assert txs[1..][i] == txs[i + 1] && txs[1..][j] == txs[j + 1];
        }
      }
      UniqueIdCountsOnce(txs[1..], id);
      if txs[0].id == id {
        assert !HasId(txs[1..], id) by {
          forall i | 0 <= i < |txs[1..]| ensures txs[1..][i].id != id {
            assert txs[1..][i] == txs[i + 1];
          }
        }
      } else {
        assert HasId(txs, id) <==> HasId(txs[1..], id) by {
          if HasId(txs, id) {
            var i :| 0 <= i < |txs| && txs[i].id == id;
            assert txs[1..][i - 1] == txs[i];
          }
          if HasId(txs[1..], id) {
            var i :| 0 <= i < |txs[1..]| && txs[1..][i].id == id;
            assert txs[i + 1] == txs[1..][i];
          }
        }
      }
    }
  }

  /** In a well-formed list a confirmed delete removes one record if the id is present and none otherwise. */
  lemma DeleteWellFormedRemovesAtMostOne(s: State, id: int)
    requires WellFormed(s)
    ensures |Delete(s, id, true).txs| == |s.txs| - (if HasId(s.txs, id) then 1 else 0)
  {
    DeleteDropsMatches(s, id);
    UniqueIdCountsOnce(s.txs, id);
  }

  /** Deleting an id that no record carries leaves the list as it was, confirmed or not. */
  lemma DeleteAbsentIsNoOp(s: State, id: int, confirmed: bool)
    requires !HasId(s.txs, id)
    ensures Delete(s, id, confirmed) == s
  {
    FilterKeepsAll(s.txs, IdIsNot(id));
    assert forall t :: t in s.txs ==> t.id != id;
  }

  /** A valid idle-mode submission of an already trimmed description stores it unchanged at the end. */
  lemma IdleSubmitAppends(s: State, desc: string, amount: real, kind: Kind, freshId: int)
    requires !Editing(s)
    requires desc != [] && IsTrimmed(desc)
    requires amount > 0.0
    ensures Apply(s, SubmitForm(desc, Finite(amount), kind, freshId)) == State(s.txs + [Tx(freshId, desc, amount, kind)], None)
  {
    TrimIdempotent(desc);
    var r := Submit(s, desc, Finite(amount), kind, freshId).state;
    assert r.txs == r.txs[..|s.txs|] + [r.txs[|s.txs|]];
  }

  /** Running two actions is applying them in turn. */
  lemma RunTwo(s: State, a1: Action, a2: Action)
    ensures Run(s, [a1, a2]) == Apply(Apply(s, a1), a2)
  {
    var s1 := Apply(s, a1);
    assert [a1, a2][1..] == [a2] && [a2][1..] == [];
    assert Run(s, [a1, a2]) == Run(s1, [a2]);
    assert Run(s1, [a2]) == Run(Apply(s1, a2), []);
  }

  /**
   The example run: from an empty page, add an income of 100 and then an
   expense of 40 (any trimmed, non-empty descriptions, any clock readings);
   income is 100, expense 40 and the balance 60.
   */
  lemma {:induction false} IncomeThenExpenseTotals(d1: string, d2: string, id1: int, id2: int)
    requires d1 != [] && IsTrimmed(d1)
    requires d2 != [] && IsTrimmed(d2)
    ensures var s := Run(Empty, [SubmitForm(d1, Finite(100.0), Income, id1),
                                 SubmitForm(d2, Finite(40.0), Expense, id2)]);
            ComputeTotals(s.txs) == Totals(100.0, 40.0, 60.0)
  {
    var a1 := SubmitForm(d1, Finite(100.0), Income, id1);
    var a2 := SubmitForm(d2, Finite(40.0), Expense, id2);
    var t1 := Tx(id1, d1, 100.0, Income);
    var t2 := Tx(id2, d2, 40.0, Expense);
    var s1 := State([t1], None);
    IdleSubmitAppends(Empty, d1, 100.0, Income, id1);
    assert [] + [t1] == [t1];
    assert Apply(Empty, a1) == s1;
    IdleSubmitAppends(s1, d2, 40.0, Expense, id2);
    RunTwo(Empty, a1, a2);
    assert Run(Empty, [a1, a2]).txs == [t1] + [t2];
    IncomeThenExpenseSums(t1, t2);
  }

  /** The totals of a list holding one income record followed by one expense record. */
  lemma IncomeThenExpenseSums(t1: Tx, t2: Tx)
    requires t1.kind == Income && t2.kind == Expense
    ensures ComputeTotals([t1] + [t2]) == Totals(t1.amount, t2.amount, t1.amount - t2.amount)
  {
    var l := [t1] + [t2];
    assert |l| == 2 && l[..1] == [t1] && l[1] == t2 && [t1][..0] == [];
    assert KindTotal([t1], Income) == t1.amount && KindTotal([t1], Expense) == 0.0;
    assert NetFlow([t1]) == t1.amount;
    assert KindTotal(l, Income) == t1.amount;
    assert KindTotal(l, Expense) == t2.amount;
    assert NetFlow(l) == t1.amount - t2.amount;
  }
}
