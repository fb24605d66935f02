/** The history screen: the list of past responses, the action filter over it, the
    selected item, and deletion by id. */
module History {
  import opened Results

  /** One stored response; the handlers look only at `id` (a UUID) and `action`. */
  datatype HistoryItem = HistoryItem(id: string, action: string, fileName: string, response: string)

  const AllActions := "all"

  /** `Array.prototype.filter`: the items satisfying `keep`, in their original order. */
  function Keep(items: seq<HistoryItem>, keep: HistoryItem -> bool): (r: seq<HistoryItem>)
    ensures |r| <= |items|
  {
    if items == [] then []
    else (if keep(items[0]) then [items[0]] else []) + Keep(items[1..], keep)
  }

  /** `xs` is `ys` with some items left out and the rest in order. */
  predicate SubsequenceOf(xs: seq<HistoryItem>, ys: seq<HistoryItem>)
    decreases |ys|
  {
    if ys == [] then xs == []
    else (xs != [] && xs[0] == ys[0] && SubsequenceOf(xs[1..], ys[1..])) || SubsequenceOf(xs, ys[1..])
  }

  /** What `filteredHistory` shows for a filter. */
  function Filtered(history: seq<HistoryItem>, filter: string): seq<HistoryItem> {
    if filter == AllActions then history else Keep(history, (item: HistoryItem) => item.action == filter)
  }

  /** The list `handleDelete` stores once the server has deleted `id`. */
  function WithoutId(history: seq<HistoryItem>, id: string): seq<HistoryItem> {
    Keep(history, (item: HistoryItem) => item.id != id)
  }

  /** The selection after deleting `id`: cleared when it was the deleted item. */
  function SelectionAfterDelete(selected: Option<HistoryItem>, id: string): Option<HistoryItem> {
    if selected.Some? && selected.value.id == id then None else selected
  }

  class HistoryPage {
    var history: seq<HistoryItem>
    var selectedItem: Option<HistoryItem>
    var filter: string

    constructor()
      ensures history == [] && selectedItem == None && filter == AllActions
    {
      history := [];
      selectedItem := None;
      filter := AllActions;
    }

    /** The items on screen. */
    function FilteredHistory(): seq<HistoryItem>
      reads this
    {
      Filtered(history, filter)
    }

    /** The completion of `handleDelete(id)` once the server call has returned;
        `deleted` is whether it succeeded. The handler is asynchronous: after the
        `await` it reads the `history` and `selectedItem` of the render in which it
        was called, here `captured` and `capturedSelection`, not the current fields.
        On failure the list and the selection stay as they are. */
    method HandleDelete(captured: seq<HistoryItem>, capturedSelection: Option<HistoryItem>,
                        id: string, deleted: bool)
      modifies this
      ensures history == if deleted then WithoutId(captured, id) else old(history)
      ensures selectedItem ==
        if deleted && capturedSelection.Some? && capturedSelection.value.id == id then None
        else old(selectedItem)
      ensures filter == old(filter)
    {
      if !deleted {
        return;
      }
      history := Keep(captured, (item: HistoryItem) => item.id != id);
      if capturedSelection.Some? && capturedSelection.value.id == id {
        selectedItem := None;
      }
    }
  }

  // ---------------------------------------------------------------------------
  // Properties
  // ---------------------------------------------------------------------------

  /** An item is kept exactly when it was there and passes the test. */
  lemma {:induction false} KeepMembers(items: seq<HistoryItem>, keep: HistoryItem -> bool, x: HistoryItem)
    ensures x in Keep(items, keep) <==> x in items && keep(x)
  {
    if items != [] {
      KeepMembers(items[1..], keep, x);
      assert x in items <==> x == items[0] || x in items[1..];
    }
  }

  /** Every item passing the test is kept as many times as it occurs, and no other. */
  lemma {:induction false} KeepCounts(items: seq<HistoryItem>, keep: HistoryItem -> bool, x: HistoryItem)
    ensures multiset(Keep(items, keep))[x] == if keep(x) then multiset(items)[x] else 0
  {
    if items != [] {
      KeepCounts(items[1..], keep, x);
      assert items == [items[0]] + items[1..];
    }
  }

  /** What is kept is a subsequence of the list: order is never changed. */
  lemma {:induction false} KeepIsSubsequence(items: seq<HistoryItem>, keep: HistoryItem -> bool)
    ensures SubsequenceOf(Keep(items, keep), items)
  {
    if items != [] {
      KeepIsSubsequence(items[1..], keep);
      var rest := Keep(items[1..], keep);
      if keep(items[0]) {
        assert Keep(items, keep) == [items[0]] + rest;
        assert ([items[0]] + rest)[1..] == rest;
      } else {
        assert Keep(items, keep) == [] + rest == rest;
      }
    }
  }

  /** The filter `all` shows the whole history. */
  lemma FilterAllShowsEverything(history: seq<HistoryItem>)
    ensures Filtered(history, AllActions) == history
  {
  }

  /** Any other filter shows exactly the items with that action, each as often as it
      occurs, in their original order. */
  lemma FilterSelectsAction(history: seq<HistoryItem>, filter: string, x: HistoryItem)
    requires filter != AllActions
    ensures x in Filtered(history, filter) <==> x in history && x.action == filter
    ensures multiset(Filtered(history, filter))[x]
      == if x.action == filter then multiset(history)[x] else 0
    ensures SubsequenceOf(Filtered(history, filter), history)
  {
    KeepMembers(history, (item: HistoryItem) => item.action == filter, x);
    KeepCounts(history, (item: HistoryItem) => item.action == filter, x);
    KeepIsSubsequence(history, (item: HistoryItem) => item.action == filter);
  }

  /** Deleting removes every item with the id and keeps every other item, as often as
      it occurs, in order. */
  lemma DeleteRemovesId(history: seq<HistoryItem>, id: string, x: HistoryItem)
    ensures x in WithoutId(history, id) <==> x in history && x.id != id
    ensures multiset(WithoutId(history, id))[x] == if x.id != id then multiset(history)[x] else 0
    ensures SubsequenceOf(WithoutId(history, id), history)
  {
    KeepMembers(history, (item: HistoryItem) => item.id != id, x);
    KeepCounts(history, (item: HistoryItem) => item.id != id, x);
    KeepIsSubsequence(history, (item: HistoryItem) => item.id != id);
  }

  /** Deleting an id twice is the same as deleting it once. */
  lemma {:induction false} DeleteIdempotent(history: seq<HistoryItem>, id: string)
    ensures WithoutId(WithoutId(history, id), id) == WithoutId(history, id)
  {
    if history != [] {
      DeleteIdempotent(history[1..], id);
      var rest := WithoutId(history[1..], id);
      if history[0].id != id {
        assert WithoutId(history, id) == [history[0]] + rest;
        assert ([history[0]] + rest)[1..] == rest;
      } else {
        assert WithoutId(history, id) == [] + rest == rest;
      }
    }
  }

  /** The selection survives a delete exactly when it is not the deleted item. */
  lemma SelectionKept(selected: Option<HistoryItem>, id: string)
    ensures SelectionAfterDelete(selected, id) == selected <==> !(selected.Some? && selected.value.id == id)
    ensures SelectionAfterDelete(selected, id) == None || SelectionAfterDelete(selected, id) == selected
  {
  }

  /** Two deletes started from the same rendered list: when the one for `b` completes
      last, the list it stores still holds the item the one for `a` removed, so that
      item is shown again although the server deleted it. */
  lemma LaterDeleteRestoresEarlier(captured: seq<HistoryItem>, a: string, b: string, x: HistoryItem)
    requires x in captured && x.id == a && a != b
    ensures x !in WithoutId(captured, a)
    ensures x in WithoutId(captured, b)
  {
    DeleteRemovesId(captured, a, x);
    DeleteRemovesId(captured, b, x);
  }
}
