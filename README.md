# To-do item store

A model of the state logic of a small React to-do app (`src/index.js`). The `App`
component holds an ordered list of items `{text, id, done}` and a `lastId` counter.
`handleCreate(text)` appends a new, not-done item with the next id.
`itemClick(id, done)` rebuilds the list with a `for` loop, overwriting `done` on the
item whose id matches. The page shows two order-preserving views of the list,
"To do" (`!done`) and "Done" (`done`).

- `items.dfy`, module `Items`: the `Item` datatype, the click update as a function on
  lists (`WithDone`), the two views (`Pending`, `Done`), and the lemmas about them.
- `app.dfy`, module `App`: class `App` with the fields `items` and `lastId`, its
  constructor and the two handlers (`HandleCreate`, `ItemClick`). It also holds
  `NextItems`, the `setState` updater of `itemClick` as a loop that pushes onto a
  fresh list. `ExampleSession` walks the create/click example through the contracts.

The object invariant `App.Valid` is stronger than "ids are unique". Under the in-order
update assumption (see "## Left out"), and because nothing is ever removed, the ids in
the list are exactly 1, 2, ..., |items| in list order, and `lastId == |items|`. `Items.DenseIdsUnique` derives from this that the ids strictly
increase, are pairwise distinct and are at most `lastId`. With batched updates the
source can lose an item and end with `lastId > |items|`; the model does not capture that.

`handleCreate` accepts any string (src/index.js:35-41). Rejecting empty text is the
input component's job, so `HandleCreate` has no precondition on `text`.

## Model

| member | source | states |
|---|---|---|
| `App.App.constructor` | src/index.js:21-26 | the app starts with an empty item list and `lastId` 0, and the id invariant holds |
| `App.App.HandleCreate` | src/index.js:35-51 | appends exactly one item at the end, with the given text, id `old lastId + 1` and `done` false; earlier items are unchanged; `lastId` becomes the new id; ids stay 1..n in list order |
| `App.App.ItemClick` | src/index.js:55-83 | the new list is the click update of the old one; `lastId` is unchanged; the id invariant is kept |
| `App.NextItems` | src/index.js:56-74 | the loop that pushes each item, the clicked one with its new flag, builds exactly the click update of the previous list |
| `Items.WithDone` | src/index.js:62-74 | a click keeps the length of the list |
| `Items.WithDoneAt` | src/index.js:64-73 | at every position, an item with the clicked id gets the new flag and keeps its text and id, and any other item is unchanged, so order is kept |
| `Items.WithDoneKeepsIds` | src/index.js:64-69 | a click keeps the id and text of every position |
| `Items.WithDoneAbsent` | src/index.js:62-74 | a click on an id no item carries leaves the list unchanged |
| `Items.WithDoneIdempotent` | src/index.js:62-74 | applying the same click twice gives the same list as applying it once |
| `Items.UniqueIdClick` | src/index.js:62-74 | with pairwise distinct ids, clicking the id at position k changes only that position, and only its flag |
| `Items.Pending` | src/index.js:91 | the "To do" view holds exactly the not-done items of the list, and is no longer than the list |
| `Items.Done` | src/index.js:96 | the "Done" view holds exactly the done items of the list, and is no longer than the list |
| `Items.ViewsPartition` | src/index.js:89-98 | every item is in exactly one view: the views' multisets add up to the list's, and their lengths sum to its length |
| `Items.PendingIsSubsequence` | src/index.js:91 | the "To do" view is a subsequence of the list, so it keeps list order |
| `Items.DoneIsSubsequence` | src/index.js:96 | the "Done" view is a subsequence of the list, so it keeps list order |
| `Items.PendingAppend` | src/index.js:91 | the "To do" view of a concatenation is the concatenation of the views |
| `Items.DoneAppend` | src/index.js:96 | the "Done" view of a concatenation is the concatenation of the views |
| `Items.NewItemViews` | src/index.js:37-51 | a newly created item goes at the end of "To do" and "Done" is unchanged |
| `Items.ClickMovesItem` | src/index.js:64-69 | with pairwise distinct ids, the clicked item lands in the view its new flag selects, no item carrying the clicked id remains in the other view, and every other item stays in its view |
| `Items.DenseIdsUnique` | src/index.js:25-26 | ids 1..n in order are strictly increasing, pairwise distinct (the precondition of `UniqueIdClick` and `ClickMovesItem`) and at most n (the last id handed out) |

## Left out

- Rendering: JSX, the `render` tree and `ReactDOM.render` mounting (src/index.js:85-104) are presentation. Only the two `filter` expressions are modelled.
- The `Input` and `List` components are not part of this model. Any rejection of empty text would live in `Input`.
- Binding the handlers with `.bind(this)` (src/index.js:30-31) is framework glue.
- Asynchronous, batched `setState`: each update is applied at once and in call order. So the model cannot show `handleCreate` reading a stale `this.state.items` while an earlier update is still pending.
- JavaScript `Number` precision: ids are unbounded naturals, so there is no rounding after 2^53.
- Other state fields: the updater spreads `...prevState`, but `items` is the only state field. The model has only `items`.
