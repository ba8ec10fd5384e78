# Income/expense tracker: the transaction store in Dafny

This project models the logic of the single-page income/expense calculator
(`script.js`). The page holds an ordered list of records
`{id, desc, amount, type}`, where `type` is `income` or `expense`. It also holds
an edit-mode flag `editId`. The event handlers mutate both:

- `addTransaction` validates the form and then either appends a record or
  updates the record being edited.
- `editTransaction` enters edit mode.
- `resetForm` leaves edit mode.
- `deleteTransaction` removes records by id, but only after the user confirms.
- `renderList` filters the list for display.
- `calculateTotals` sums income and expense and derives the balance.

Each handler is a pure function from `State` (the list plus `editId`) to the
next state. Browser inputs become parameters:

- the raw description text (trimmed inside the model, as `.trim()` does);
- the parsed amount, a JavaScript number that is either finite or NaN;
- the checked type;
- the clock reading that `Date.now()` would give (`freshId`);
- the user's answer to `confirm` (`confirmed`).

The validation `alert` becomes the `alerted` flag of the submission result.

Modules, leaf to root:

- `Wrappers`: `Option`.
- `Seqs`: order-preserving `Filter` with its subsequence, membership,
  multiplicity and count laws.
- `Text`: `String.prototype.trim` over the ECMAScript WhiteSpace and
  LineTerminator code points.
- `Ledger`: records, state, the submission guard, the well-formedness
  invariant, and `find`.
- `Store`: the handlers.
- `Totals`: `calculateTotals`, proved equal to one-pass reference sums
  (`Totals.SumOfKind`, `Totals.NetFlowSplits`).
- `Page`: what `renderList` shows, and the user actions applied in sequence.
- `Properties`: properties that relate several handler calls.

Two details follow the code exactly:

- `if (editId)` is a truthiness test, so an edit id of 0 acts like `null`
  (`Ledger.Editing`; see `Properties.EditOfZeroAppends`).
- `editTransaction` assigns `editId` before it reads the record it found. An
  unknown id therefore still enters edit mode, and the handler then throws
  while filling the form. `Store.Edit` sets the id in every case and returns
  `None` as the record to prefill. A later valid submission in that mode
  changes nothing and returns the page to idle
  (`Properties.SubmitWithStaleEditIdChangesNothing`).

Ids are meant to be unique, but nothing in the code makes them so. Two
submissions within the same millisecond get the same `Date.now()`. The model
therefore never assumes uniqueness inside a handler. `Submit` appends whatever
clock reading it is given, and `Delete` removes every record carrying the id.
Uniqueness appears only as an invariant, `Ledger.WellFormed`. That invariant
holds along any run in which every idle-mode submission receives a positive,
unused clock reading (`Page.FreshClocks`, `Properties.RunPreservesWellFormed`).

## Model

| member | source | states |
|---|---|---|
| `Seqs.Filter` | script.js:82-84 | `Array.prototype.filter`: the result keeps exactly the passing elements, each as often as in the input, as an order-preserving subsequence whose length is the number of passing elements |
| `Text.Trim` | script.js:42 | the trimmed description is a contiguous slice of the input; only whitespace is cut from either end, and neither end of the result is whitespace |
| `Text.TrimEmptyIffAllWhitespace` | script.js:42-46 | the description counts as empty exactly when the raw input consists only of whitespace |
| `Text.TrimIdempotent` | script.js:42 | trimming an already trimmed description changes nothing |
| `Ledger.Find` | script.js:110 | `find` returns a record exactly when some record carries the id, and the one it returns is the first such record |
| `Ledger.FindUnique` | script.js:110 | when ids are distinct, `find` returns the record at any index carrying that id |
| `Ledger.NaNPassesGuardAsWritten` | script.js:43-49 | the guard as written accepts a non-empty description with a NaN amount, which the intended guard refuses |
| `Ledger.GuardsAgreeOnFiniteAmounts` | script.js:43-49 | the written and intended guards differ only on a NaN amount with a non-empty description |
| `Store.UpdateId` | script.js:52-54 | the in-place update keeps the length; each record carrying the id gets the new desc, amount and type and keeps its id; every other record is unchanged |
| `Store.RemoveId` | script.js:121 | no record carries the id afterwards; every record with another id survives as often as before; the survivors keep their relative order |
| `Store.Visible` | script.js:82-84 | filter `all` shows the whole list; a type filter shows exactly the records of that type, each as often as in the list, in list order |
| `Store.Submit` | script.js:41-67 | the alert is raised exactly when the trimmed description is empty or the amount is not a positive number, and then nothing changes; in idle mode one record `{freshId, desc, amount, type}` is appended and the earlier records stay as they were; in edit mode the length and all ids are kept, only records with the edited id take the new fields; a valid submission always returns to idle |
| `Store.Edit` | script.js:109-116 | the list is unchanged and the edit id becomes the clicked id; the prefill record is what `find` returns: the first record carrying the id, and none exactly when no record carries it |
| `Store.Reset` | script.js:70-75 | the list is unchanged and the page is no longer in edit mode |
| `Store.Delete` | script.js:119-123 | without confirmation the state is unchanged; with confirmation no record carries the id, every other record keeps its multiplicity, and the order is kept; the edit mode is never touched |
| `Totals.OfKind` | script.js:127-133 | the per-kind filter keeps exactly the records of that type, with their multiplicity, in order |
| `Totals.ComputeTotals` | script.js:126-138 | income and expense equal one-pass per-kind totals over the whole list, and the balance equals the net signed flow of all records |
| `Totals.SumOfKind` | script.js:127-133 | filtering by type and then reducing the amounts equals the one-pass sum of the amounts of that type |
| `Totals.NetFlowSplits` | script.js:137 | income total minus expense total equals the sum of every amount signed by its type |
| `Totals.AppendRaisesOneTotal` | script.js:126-138 | appending a record raises only the sum of its own type, by its amount, and moves the balance by its signed amount |
| `Totals.TotalsNonNegative` | script.js:126-133 | when every amount is positive, neither sum is negative |
| `Page.VisibleKindIsOfKind` | script.js:82-84 | the rows shown under the `income` (or `expense`) filter are exactly the records `calculateTotals` sums for that type |
| `Page.Render` | script.js:78-106 | the rows are exactly the filtered records in list order; the placeholder appears exactly when there are no rows, that is when no record passes the filter; whatever the filter, the totals are the sums of the rows the `income` and `expense` views would show, and balance is income minus expense |
| `Seqs.SubsequenceMembers` | script.js:121 | every record kept by an order-preserving filter comes from the filtered list |
| `Properties.SubsequenceKeepsUniqueIds` | script.js:121 | given a list with distinct ids, the records kept by an order-preserving filter have distinct ids |
| `Properties.SubmitPreservesWellFormed` | script.js:41-67 | a submission keeps ids distinct and every stored amount positive and description trimmed and non-empty, given a fresh positive clock in idle mode |
| `Properties.DeletePreservesWellFormed` | script.js:119-123 | a delete keeps the list well-formed |
| `Properties.ApplyPreservesWellFormed` | script.js:24-26 | every user action keeps the list well-formed, given a fresh clock for an idle-mode submission |
| `Properties.RunPreservesWellFormed` | script.js:24-26 | any sequence of user actions with fresh clock readings keeps the list well-formed |
| `Properties.EmptyIsWellFormed` | script.js:4-5 | the empty page is well-formed and all its totals are zero |
| `Properties.SubmitThenFind` | script.js:56-63 | after a valid idle-mode submission with an unused clock reading, `find` on that id returns the new record |
| `Properties.FindAppendFresh` | script.js:110 | `find` reaches a record appended to a list that does not carry its id |
| `Properties.EditThenSubmitUpdates` | script.js:51-55 | edit click then valid submit on a record of a well-formed list keeps the length; the record found by that id has the new fields; every other record is unchanged; the page ends idle |
| `Properties.SubmitWithStaleEditIdChangesNothing` | script.js:51-55 | in edit mode with an id no record carries, a valid submission appends nothing, changes no record, and returns to idle |
| `Properties.DeleteWhileEditingDropsEdit` | script.js:119-123 | deleting the record being edited leaves edit mode on, so the next valid submission leaves the list as the delete left it |
| `Properties.ResetThenSubmitAppends` | script.js:70-75 | after the reset button, a valid submission inserts exactly the new record at the end, whatever edit was pending |
| `Properties.EditOfZeroAppends` | script.js:51 | after an edit click on id 0, a valid submission appends instead of updating, because `if (editId)` treats 0 as false |
| `Properties.DeleteDropsMatches` | script.js:121 | a confirmed delete shortens the list by exactly the number of records carrying the id |
| `Properties.UniqueIdCountsOnce` | script.js:121 | with distinct ids, a present id is carried by exactly one record and an absent one by none |
| `Properties.DeleteWellFormedRemovesAtMostOne` | script.js:119-123 | on a well-formed list, a confirmed delete removes one record if the id is present and none otherwise |
| `Properties.DeleteAbsentIsNoOp` | script.js:119-123 | deleting an id that no record carries leaves the state unchanged |
| `Properties.IdleSubmitAppends` | script.js:56-63 | a valid idle-mode submission of an already trimmed description stores that exact text, amount, type and clock reading at the end of the list |
| `Properties.IncomeThenExpenseSums` | script.js:126-138 | a list of one income record followed by one expense record totals to the income amount, the expense amount and their difference |
| `Properties.IncomeThenExpenseTotals` | script.js:126-138 | from an empty page, adding an income of 100 and then an expense of 40 (any trimmed non-empty descriptions, any clock readings) gives income 100, expense 40 and balance 60 |

## Left out

- DOM access is not modelled: reading the form fields, `innerHTML` and list-item markup (script.js:92-103), and event-listener wiring. `Page.Action` and `Page.Apply` stand in for the wiring.
- The form contents are not modelled. This covers the values `editTransaction` writes into the form (script.js:113-115) and the values `resetForm` clears (script.js:71-73). `Store.Edit` returns the record the source reads for the prefill.
- `localStorage` loading and saving and `JSON.parse`/`JSON.stringify` (script.js:4, 141-144) are browser I/O. Every lemma takes its starting state as a parameter. `Ledger.Empty` is the page with nothing stored. No serialisation round trip is stated.
- `formatCurrency` (script.js:33-38) calls `Intl.NumberFormat`, an opaque library. The totals are stated before formatting.
- Unary `+` parsing of the amount field is a library conversion. The parsed number is a parameter: a finite real or NaN. Infinities and floating-point rounding are not modelled. Amounts are exact `real`s, so the sums are exact.
- The `type` radio value is modelled as `income` or `expense` only. Other strings cannot reach the handler through the page.
- `saveAndRender` re-renders after each change (script.js:141-144). `Page.Render` is a separate function of the state and is not composed into the handlers.
- Store.Submit: it uses the intended guard `Ledger.Valid` rather than the guard as written, so it differs from the code on a NaN amount (see Findings).

## Findings

| source | as written | input that shows it | evidently intended | confidence | as-written member | corrected member |
|---|---|---|---|---|---|---|
| script.js:43-49 | `if (!desc \|\| amount <= 0)` rejects only amounts that compare at most 0. `NaN <= 0` is false, so a NaN amount passes and is stored. | description "rent" and an amount field text that unary `+` turns into NaN, such as "abc"; this assumes the amount field accepts free text, and the page markup is not part of this model | reject any amount that is not a positive number | low, not executed | `Ledger.NaNPassesGuardAsWritten` (with `Ledger.PassesGuardAsWritten`, and `Ledger.GuardsAgreeOnFiniteAmounts` showing NaN is the only gap) | `Ledger.Valid`, used by `Store.Submit`; `Properties.SubmitPreservesWellFormed` proves every stored amount is positive |
