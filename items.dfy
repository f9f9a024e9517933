/** The item list of the to-do app as a value: the item record, the update a
    click applies to the list, the two views the page shows, and what is
    proved about them. */
module Items {

  /** One to-do entry: its text, the id it was created with, and whether it is done. */
  datatype Item = Item(text: string, id: nat, done: bool)

  /** The list after a click on `id`: every item whose id is `id` gets its
      `done` flag overwritten, every other item is kept as it is, in order. */
  function WithDone(s: seq<Item>, id: int, done: bool): (r: seq<Item>)
    ensures |r| == |s|
  {
    if s == [] then []
    else
      var head := if s[0].id == id then s[0].(done := done) else s[0];
      [head] + WithDone(s[1..], id, done)
  }

  /** True when some item of `s` carries `id`. */
  predicate HasId(s: seq<Item>, id: int)
  {
    exists k :: 0 <= k < |s| && s[k].id == id
  }

  /** The "To do" view: the items not yet done, in list order. */
  function Pending(s: seq<Item>): (r: seq<Item>)
    ensures |r| <= |s|
    ensures forall x :: x in r <==> x in s && !x.done
  {
    if s == [] then []
    else
      assert s == [s[0]] + s[1..];
      if !s[0].done then [s[0]] + Pending(s[1..]) else Pending(s[1..])
  }

  /** The "Done" view: the items that are done, in list order. */
  function Done(s: seq<Item>): (r: seq<Item>)
    ensures |r| <= |s|
    ensures forall x :: x in r <==> x in s && x.done
  {
    if s == [] then []
    else
      assert s == [s[0]] + s[1..];
      if s[0].done then [s[0]] + Done(s[1..]) else Done(s[1..])
  }

  /** `sub` can be obtained from `s` by deleting elements, so it keeps their relative order. */
  predicate SubsequenceOf(sub: seq<Item>, s: seq<Item>)
    decreases |s|
  {
    if sub == [] then true
    else if s == [] then false
    else if sub[0] == s[0] then SubsequenceOf(sub[1..], s[1..])
    else SubsequenceOf(sub, s[1..])
  }

  /** The ids of `s` are 1, 2, ..., |s| in list order. */
  predicate IdsDense(s: seq<Item>)
  {
    forall k :: 0 <= k < |s| ==> s[k].id == k + 1
  }

  /** No two items of `s` carry the same id. */
  predicate IdsUnique(s: seq<Item>)
  {
    forall i, j :: 0 <= i < |s| && 0 <= j < |s| && i != j ==> s[i].id != s[j].id
  }

  /** The ids of `s` strictly increase along the list. */
  predicate IdsIncreasing(s: seq<Item>)
  {
    forall i, j :: 0 <= i < j < |s| ==> s[i].id < s[j].id
  }

  // ---------------------------------------------------------------------------
  // The click update

  /** Position by position: the item with the clicked id gets the new `done`
      and keeps its text and id; every other item is unchanged. */
  lemma {:induction false} WithDoneAt(s: seq<Item>, id: int, done: bool, k: nat)
    requires k < |s|
    ensures s[k].id == id ==> WithDone(s, id, done)[k] == Item(s[k].text, s[k].id, done)
    ensures s[k].id != id ==> WithDone(s, id, done)[k] == s[k]
  {
    if k > 0 {
      WithDoneAt(s[1..], id, done, k - 1);
    }
  }

  /** A click keeps the text and the id of every position, so the list of ids is unchanged. */
  lemma WithDoneKeepsIds(s: seq<Item>, id: int, done: bool)
    ensures forall k :: 0 <= k < |s| ==>
      WithDone(s, id, done)[k].id == s[k].id && WithDone(s, id, done)[k].text == s[k].text
  {
    forall k | 0 <= k < |s|
      ensures WithDone(s, id, done)[k].id == s[k].id && WithDone(s, id, done)[k].text == s[k].text
    {
      WithDoneAt(s, id, done, k);
    }
  }

  /** A click on an id that no item carries leaves the list unchanged. */
  lemma {:induction false} WithDoneAbsent(s: seq<Item>, id: int, done: bool)
    requires !HasId(s, id)
    ensures WithDone(s, id, done) == s
  {
    if s != [] {
      assert s[0].id != id;
      assert !HasId(s[1..], id) by {
        forall k | 0 <= k < |s[1..]| ensures s[1..][k].id != id {
          assert s[1..][k] == s[k + 1];
        }
      }
      WithDoneAbsent(s[1..], id, done);
    }
  }

  /** Clicking the same id with the same flag twice is the same as clicking it once. */
  lemma {:induction false} WithDoneIdempotent(s: seq<Item>, id: int, done: bool)
    ensures WithDone(WithDone(s, id, done), id, done) == WithDone(s, id, done)
  {
    if s != [] {
      var r := WithDone(s, id, done);
      assert r[1..] == WithDone(s[1..], id, done);
      WithDoneIdempotent(s[1..], id, done);
    }
  }

  /** When ids are unique, a click on the id of the
      item at position `k` replaces exactly that item, with only its flag changed. */
  lemma UniqueIdClick(s: seq<Item>, k: nat, done: bool)
    requires IdsUnique(s)
    requires k < |s|
    ensures WithDone(s, s[k].id, done) == s[k := s[k].(done := done)]
  {
    var r := WithDone(s, s[k].id, done);
    forall j | 0 <= j < |s| ensures r[j] == s[k := s[k].(done := done)][j] {
      WithDoneAt(s, s[k].id, done, j);
    }
  }

  // ---------------------------------------------------------------------------
  // The two views

  /** Every item is in exactly one view: the two views together hold each
      item of the list as many times as the list does, and their lengths add up. */
  lemma {:induction false} ViewsPartition(s: seq<Item>)
    ensures |Pending(s)| + |Done(s)| == |s|
    ensures multiset(Pending(s)) + multiset(Done(s)) == multiset(s)
  {
    if s != [] {
      ViewsPartition(s[1..]);
      assert s == [s[0]] + s[1..];
    }
  }

  /** The "To do" view keeps the relative order of the list. */
  lemma {:induction false} PendingIsSubsequence(s: seq<Item>)
    ensures SubsequenceOf(Pending(s), s)
  {
    if s != [] {
      PendingIsSubsequence(s[1..]);
      if s[0].done && Pending(s[1..]) != [] {
        assert Pending(s[1..])[0] in Pending(s[1..]);
      }
    }
  }

  /** The "Done" view keeps the relative order of the list. */
  lemma {:induction false} DoneIsSubsequence(s: seq<Item>)
    ensures SubsequenceOf(Done(s), s)
  {
    if s != [] {
      DoneIsSubsequence(s[1..]);
      if !s[0].done && Done(s[1..]) != [] {
        assert Done(s[1..])[0] in Done(s[1..]);
      }
    }
  }

  /** The "To do" view of a concatenation is the concatenation of the views. */
  lemma {:induction false} PendingAppend(a: seq<Item>, b: seq<Item>)
    ensures Pending(a + b) == Pending(a) + Pending(b)
  {
    if a != [] {
      assert (a + b)[1..] == a[1..] + b;
      PendingAppend(a[1..], b);
    } else {
      assert a + b == b;
    }
  }

  /** The "Done" view of a concatenation is the concatenation of the views. */
  lemma {:induction false} DoneAppend(a: seq<Item>, b: seq<Item>)
    ensures Done(a + b) == Done(a) + Done(b)
  {
    if a != [] {
      assert (a + b)[1..] == a[1..] + b;
      DoneAppend(a[1..], b);
    } else {
      assert a + b == b;
    }
  }

  /** Appending a new, not-done item puts it at the end of "To do" and leaves "Done" alone. */
  lemma NewItemViews(s: seq<Item>, x: Item)
    requires !x.done
    ensures Pending(s + [x]) == Pending(s) + [x]
    ensures Done(s + [x]) == Done(s)
  {
    PendingAppend(s, [x]);
    DoneAppend(s, [x]);
    assert Pending([x]) == [x];
    assert Done([x]) == [];
  }

  /** With unique ids, a click on the item at position `k` moves its updated
      version into the view its new flag selects; no item carrying the clicked
      id is left in the other view; every other item stays in the view it was in. */
  lemma ClickMovesItem(s: seq<Item>, k: nat, done: bool)
    requires IdsUnique(s)
    requires k < |s|
    ensures var r := WithDone(s, s[k].id, done);
      var x := s[k].(done := done);
      (x in Done(r) <==> done) && (x in Pending(r) <==> !done)
    ensures var r := WithDone(s, s[k].id, done);
      forall j :: 0 <= j < |s| && j != k ==>
        (s[j] in Done(r) <==> s[j].done) && (s[j] in Pending(r) <==> !s[j].done)
    ensures var r := WithDone(s, s[k].id, done);
      done ==> forall y :: y in Pending(r) ==> y.id != s[k].id
    ensures var r := WithDone(s, s[k].id, done);
      !done ==> forall y :: y in Done(r) ==> y.id != s[k].id
  {
    UniqueIdClick(s, k, done);
    var r := WithDone(s, s[k].id, done);
    assert r[k] == s[k].(done := done);
    forall j | 0 <= j < |s| && j != k
      ensures (s[j] in Done(r) <==> s[j].done) && (s[j] in Pending(r) <==> !s[j].done)
    {
      assert r[j] == s[j];
    }
    forall y | y in r && y.id == s[k].id ensures y.done == done {
      var j :| 0 <= j < |r| && r[j] == y;
      if j != k { assert r[j] == s[j]; }
    }
  }

  // ---------------------------------------------------------------------------
  // Ids

  /** Dense ids are strictly increasing, hence pairwise distinct, and none
      exceeds the number of items. */
  lemma DenseIdsUnique(s: seq<Item>)
    requires IdsDense(s)
    ensures IdsIncreasing(s)
    ensures IdsUnique(s)
    ensures forall k :: 0 <= k < |s| ==> s[k].id <= |s|
  {
  }
}
