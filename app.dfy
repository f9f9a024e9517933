/** The to-do app's component state: the ordered item list and the last id
    handed out, with the two handlers that change them. Each state update is
    applied at once and in order. */
module App {
  import opened Items

  /** The state update that a click on item `id` schedules: walks the previous
      list and pushes each item onto a fresh list, the clicked one with its
      flag overwritten. */
  method NextItems(prev: seq<Item>, id: int, done: bool) returns (next: seq<Item>)
    ensures next == WithDone(prev, id, done)
  {
    next := [];
    for i := 0 to |prev|
      invariant |next| == i
      invariant forall k :: 0 <= k < i ==>
        next[k] == if prev[k].id == id then prev[k].(done := done) else prev[k]
    {
      var item := prev[i];
      if item.id == id {
        next := next + [item.(done := done)];
        continue;
      }
      next := next + [item];
    }
    forall k | 0 <= k < |prev| ensures next[k] == WithDone(prev, id, done)[k] {
      WithDoneAt(prev, id, done, k);
    }
  }

  class App {
    var items: seq<Item>
    var lastId: nat

    /** Ids are handed out 1, 2, 3, ... in list order, and `lastId` is the
        last one handed out (nothing is ever removed). */
    ghost predicate Valid()
      reads this
    {
      IdsDense(items) && lastId == |items|
    }

    /** The app starts with no items and no id handed out. */
    constructor ()
      ensures Valid()
      ensures items == [] && lastId == 0
    {
      items := [];
      lastId := 0;
    }

    /** Creates an item with the given text: it goes at the end of the list,
        not done, with the next id, which becomes `lastId`. Any text is accepted. */
    method HandleCreate(text: string)
      requires Valid()
      modifies this
      ensures Valid()
      ensures items == old(items) + [Item(text, old(lastId) + 1, false)]
      ensures lastId == old(lastId) + 1
    {
      var newItem := Item(text, lastId + 1, false);
      lastId := newItem.id;
      items := items + [newItem];
    }

    /** A click on item `id`: the list is replaced by its updated copy; `lastId` is untouched. */
    method ItemClick(id: int, done: bool)
      requires Valid()
      modifies this
      ensures Valid()
      ensures items == WithDone(old(items), id, done)
      ensures lastId == old(lastId)
    {
      var nextStateItems := NextItems(items, id, done);
      WithDoneKeepsIds(items, id, done);
      items := nextStateItems;
    }
  }

  /** A session as a caller sees it through the contracts above: create "A"
      and "B", mark A done, then not done again. */
  method ExampleSession()
  {
    var app := new App();
    app.HandleCreate("A");
    app.HandleCreate("B");
    var a, b := Item("A", 1, false), Item("B", 2, false);
    assert app.items == [a, b];

    app.ItemClick(1, true);
    DenseIdsUnique(app.items);
    assert app.items == [a.(done := true), b] by {
      UniqueIdClick([a, b], 0, true);
    }
    assert Pending(app.items) == [b];
    assert Done(app.items) == [a.(done := true)];

    app.ItemClick(1, false);
    assert app.items == [a, b] by {
      UniqueIdClick([a.(done := true), b], 0, false);
    }
    assert Pending(app.items) == [a, b];
    assert Done(app.items) == [];

    app.ItemClick(7, true);
    assert app.items == [a, b] by {
      WithDoneAbsent([a, b], 7, true);
    }
  }
}
