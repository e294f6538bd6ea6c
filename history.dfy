/** The clipboard history as a value: the items, the `firstIndex(where:)`
    lookups the manager performs, and the list transformations behind
    `addItem`, `deleteItem`, `togglePinItem` and `updateItem`.  The class in
    manager.dfy changes its `items` field exactly as these functions say. */
module ClipboardHistory {
  import opened Optional

  /** `maxItems`: the history never grows past this many items. */
  const MAX_ITEMS: nat := 50

  /** `ClipboardItem`.  `UUID` and `Date` are modelled as naturals handed out
      by two counters of the manager. */
  datatype Item = Item(id: nat, text: string, date: nat, isPinned: bool)

  /** `ClipboardItem.init(text:)`: a fresh id, the current date, not pinned. */
  function NewItem(text: string, id: nat, date: nat): (r: Item)
    ensures r.text == text && r.id == id && r.date == date && !r.isPinned
  {
    Item(id, text, date, false)
  }

  /** `items.first?.text`. */
  function HeadText(s: seq<Item>): (r: Option<string>)
    ensures r.None? <==> s == []
    ensures r.Some? ==> r.value == s[0].text
  {
    if |s| == 0 then None else Some(s[0].text)
  }

  // ---------------------------------------------------------------------------
  // Lookups

  /** The two closures the manager hands to `firstIndex(where:)`:
      `{ $0.text == text }` and `{ $0.id == item.id }`. */
  datatype Key = ByText(text: string) | ById(id: nat)

  predicate Matches(x: Item, k: Key) {
    match k
    case ByText(t) => x.text == t
    case ById(i) => x.id == i
  }

  /** `Array.firstIndex(where:)`: the position of the first matching item. */
  function FirstIndex(s: seq<Item>, k: Key): (r: Option<nat>)
    ensures r.Some? ==> r.value < |s| && Matches(s[r.value], k)
    ensures r.Some? ==> forall j :: 0 <= j < r.value ==> !Matches(s[j], k)
    ensures r.None? <==> forall j :: 0 <= j < |s| ==> !Matches(s[j], k)
  {
    if |s| == 0 then None
    else if Matches(s[0], k) then Some(0)
    else match FirstIndex(s[1..], k)
      case None => None
      case Some(i) => Some(i + 1)
  }

  /** The first match is determined by the two properties that define it. */
  lemma FirstIndexAt(s: seq<Item>, k: Key, i: nat)
    requires i < |s| && Matches(s[i], k)
    requires forall j :: 0 <= j < i ==> !Matches(s[j], k)
    ensures FirstIndex(s, k) == Some(i)
  {
  }

  /** The search `firstIndex(where:)` runs, as a loop over the array. */
  method FirstIndexWhere(s: seq<Item>, k: Key) returns (r: Option<nat>)
    ensures r.Some? ==> r.value < |s| && Matches(s[r.value], k)
    ensures r.Some? ==> forall j :: 0 <= j < r.value ==> !Matches(s[j], k)
    ensures r.None? ==> forall j :: 0 <= j < |s| ==> !Matches(s[j], k)
    ensures r == FirstIndex(s, k)
  {
    var i := 0;
    while i < |s|
      invariant 0 <= i <= |s|
      invariant forall j :: 0 <= j < i ==> !Matches(s[j], k)
    {
      if Matches(s[i], k) {
        FirstIndexAt(s, k, i);
        return Some(i);
      }
      i := i + 1;
    }
    return None;
  }

  /** `Array.remove(at:)`. */
  function RemoveAt(s: seq<Item>, i: nat): (r: seq<Item>)
    requires i < |s|
    ensures |r| == |s| - 1
    ensures forall j :: 0 <= j < i ==> r[j] == s[j]
    ensures forall j :: i <= j < |r| ==> r[j] == s[j + 1]
  {
    s[..i] + s[i + 1..]
  }

  /** How many items carry text `t`. */
  function CountText(s: seq<Item>, t: string): nat {
    if |s| == 0 then 0 else (if s[0].text == t then 1 else 0) + CountText(s[1..], t)
  }

  /** No two items carry the same text. */
  predicate DistinctTexts(s: seq<Item>) {
    forall j, k :: 0 <= j < k < |s| ==> s[j].text != s[k].text
  }

  // ---------------------------------------------------------------------------
  // The four list transformations

  /** `firstIndex(where:)` followed by `remove(at:)` when it finds something. */
  function RemoveFirst(s: seq<Item>, k: Key): (r: seq<Item>)
    ensures FirstIndex(s, k).None? ==> r == s
    ensures FirstIndex(s, k).Some? ==> |r| == |s| - 1
    ensures forall j :: 0 <= j < |r| ==> r[j] in s
  {
    match FirstIndex(s, k)
    case Some(i) => RemoveAt(s, i)
    case None => s
  }

  /** `addItem`: drop the first item with the same text, insert the new item
      at position 0, and drop the last item when that overflows the capacity. */
  function Added(s: seq<Item>, it: Item): (r: seq<Item>)
    ensures |r| > 0 && r[0] == it
    ensures |r| <= if |s| < MAX_ITEMS then |s| + 1 else |s|
    ensures forall j :: 1 <= j < |r| ==> r[j] in s
  {
    var front := [it] + RemoveFirst(s, ByText(it.text));
    if |front| > MAX_ITEMS then front[..|front| - 1] else front
  }

  /** `deleteItem`: remove the first item with the given id, if any. */
  function Deleted(s: seq<Item>, id: nat): (r: seq<Item>)
    ensures |r| == if FirstIndex(s, ById(id)).Some? then |s| - 1 else |s|
    ensures forall j :: 0 <= j < |r| ==> r[j] in s
  {
    RemoveFirst(s, ById(id))
  }

  /** `togglePinItem`: flip `isPinned` of the first item with the given id. */
  function Toggled(s: seq<Item>, id: nat): (r: seq<Item>)
    ensures |r| == |s|
    ensures forall j :: 0 <= j < |s| ==>
              r[j].id == s[j].id && r[j].text == s[j].text && r[j].date == s[j].date
    ensures forall j :: 0 <= j < |s| && r[j] != s[j] ==> s[j].id == id
  {
    match FirstIndex(s, ById(id))
    case Some(i) => s[i := s[i].(isPinned := !s[i].isPinned)]
    case None => s
  }

  /** `updateItem`: replace the text of the first item with the given id. */
  function Updated(s: seq<Item>, id: nat, newText: string): (r: seq<Item>)
    ensures |r| == |s|
    ensures forall j :: 0 <= j < |s| ==>
              r[j].id == s[j].id && r[j].date == s[j].date && r[j].isPinned == s[j].isPinned
    ensures forall j :: 0 <= j < |s| && r[j] != s[j] ==> s[j].id == id && r[j].text == newText
  {
    match FirstIndex(s, ById(id))
    case Some(i) => s[i := s[i].(text := newText)]
    case None => s
  }

  // ---------------------------------------------------------------------------
  // addItem

  /** The new item, with the given text and unpinned, is always first. */
  lemma AddPutsNewItemFirst(s: seq<Item>, text: string, id: nat, date: nat)
    ensures |Added(s, NewItem(text, id, date))| > 0
    ensures Added(s, NewItem(text, id, date))[0] == Item(id, text, date, false)
    ensures HeadText(Added(s, NewItem(text, id, date))) == Some(text)
  {
  }

  /** When some item already has the text, the first such item is removed and
      every other item keeps its relative order behind the new one. */
  lemma AddMovesDuplicateToFront(s: seq<Item>, it: Item, i: nat)
    requires |s| <= MAX_ITEMS
    requires i < |s| && s[i].text == it.text
    requires forall j :: 0 <= j < i ==> s[j].text != it.text
    ensures Added(s, it) == [it] + s[..i] + s[i + 1..]
    ensures |Added(s, it)| == |s|
  {
    FirstIndexAt(s, ByText(it.text), i);
  }

  /** When no item has the text, the new item is put in front; if the history
      was full, exactly the last item is evicted, whether pinned or not. */
  lemma AddNewTextEvictsLast(s: seq<Item>, it: Item)
    requires forall j :: 0 <= j < |s| ==> s[j].text != it.text
    ensures |s| < MAX_ITEMS ==> Added(s, it) == [it] + s
    ensures |s| >= MAX_ITEMS ==> Added(s, it) == [it] + s[..|s| - 1]
  {
    if |s| >= MAX_ITEMS {
      assert ([it] + s)[..|s|] == [it] + s[..|s| - 1];
    }
  }

  /** A history within capacity stays within capacity; a duplicate insert
      keeps the count, a new text grows it by one up to the capacity. */
  lemma AddRespectsCapacity(s: seq<Item>, it: Item)
    requires |s| <= MAX_ITEMS
    ensures |Added(s, it)| <= MAX_ITEMS
    ensures (exists j :: 0 <= j < |s| && s[j].text == it.text) ==> |Added(s, it)| == |s|
    ensures (forall j :: 0 <= j < |s| ==> s[j].text != it.text) ==>
              |Added(s, it)| == if |s| < MAX_ITEMS then |s| + 1 else MAX_ITEMS
  {
  }

  lemma {:induction false} CountTextAppend(a: seq<Item>, b: seq<Item>, t: string)
    ensures CountText(a + b, t) == CountText(a, t) + CountText(b, t)
  {
    if |a| == 0 {
      assert a + b == b;
    } else {
      assert (a + b)[1..] == a[1..] + b;
      CountTextAppend(a[1..], b, t);
    }
  }

  lemma {:induction false} CountTextZero(s: seq<Item>, t: string)
    ensures CountText(s, t) == 0 <==> forall j :: 0 <= j < |s| ==> s[j].text != t
  {
    if |s| > 0 {
      CountTextZero(s[1..], t);
      assert forall j :: 1 <= j < |s| ==> s[j] == s[1..][j - 1];
    }
  }

  lemma CountTextPrefix(s: seq<Item>, n: nat, t: string)
    requires n <= |s|
    ensures CountText(s[..n], t) <= CountText(s, t)
  {
    assert s == s[..n] + s[n..];
    CountTextAppend(s[..n], s[n..], t);
  }

  /** Removing the first item with text t from a history with at most one
      such item leaves none. */
  lemma RemoveFirstLeavesNoCopy(s: seq<Item>, t: string)
    requires CountText(s, t) <= 1
    ensures CountText(RemoveFirst(s, ByText(t)), t) == 0
  {
    match FirstIndex(s, ByText(t)) {
      case Some(i) =>
        assert s == s[..i] + ([s[i]] + s[i + 1..]);
        CountTextAppend(s[..i], [s[i]] + s[i + 1..], t);
        CountTextAppend([s[i]], s[i + 1..], t);
        CountTextZero(s[..i], t);
        CountTextAppend(s[..i], s[i + 1..], t);
      case None =>
        CountTextZero(s, t);
    }
  }

  /** Deduplication: if at most one item had the text before, exactly one
      has it afterwards. */
  lemma AddLeavesOneCopy(s: seq<Item>, it: Item)
    requires CountText(s, it.text) <= 1
    ensures CountText(Added(s, it), it.text) == 1
  {
    var t := it.text;
    var rest := RemoveFirst(s, ByText(t));
    RemoveFirstLeavesNoCopy(s, t);
    var front := [it] + rest;
    assert front[1..] == rest;
    if |front| > MAX_ITEMS {
      var kept := front[..|front| - 1];
      assert kept[1..] == rest[..|rest| - 1];
      CountTextPrefix(rest, |rest| - 1, t);
    }
  }

  lemma RemoveFirstKeepsDistinctTexts(s: seq<Item>, t: string)
    requires DistinctTexts(s)
    ensures DistinctTexts(RemoveFirst(s, ByText(t)))
    ensures forall j :: 0 <= j < |RemoveFirst(s, ByText(t))| ==> RemoveFirst(s, ByText(t))[j].text != t
  {
    match FirstIndex(s, ByText(t)) {
      case Some(i) =>
        var r := RemoveAt(s, i);
        forall j | 0 <= j < |r| ensures r[j].text != t {
          if j < i { assert r[j] == s[j]; } else { assert r[j] == s[j + 1]; }
        }
        forall j, k | 0 <= j < k < |r| ensures r[j].text != r[k].text {
          var sj := if j < i then j else j + 1;
          var sk := if k < i then k else k + 1;
          assert r[j] == s[sj] && r[k] == s[sk];
        }
      case None =>
    }
  }

  /** Inserting keeps the "one item per text" property of the history. */
  lemma AddKeepsDistinctTexts(s: seq<Item>, it: Item)
    requires DistinctTexts(s)
    ensures DistinctTexts(Added(s, it))
  {
    var rest := RemoveFirst(s, ByText(it.text));
    RemoveFirstKeepsDistinctTexts(s, it.text);
    var front := [it] + rest;
    forall j, k | 0 <= j < k < |front| ensures front[j].text != front[k].text {
      assert front[k] == rest[k - 1];
      if j > 0 { assert front[j] == rest[j - 1]; }
    }
  }

  /** Inserting "A", then "B", then "A" again leaves [A, B]: the second "A"
      replaces the first at the front and "B" is untouched. */
  lemma ReinsertMovesToFront()
    ensures Added(Added(Added([], NewItem("A", 0, 0)), NewItem("B", 1, 1)), NewItem("A", 2, 2))
            == [NewItem("A", 2, 2), NewItem("B", 1, 1)]
  {
    var a0, b1, a2 := NewItem("A", 0, 0), NewItem("B", 1, 1), NewItem("A", 2, 2);
    assert Added([], a0) == [a0];
    AddNewTextEvictsLast([a0], b1);
    AddMovesDuplicateToFront([b1, a0], a2, 1);
  }

  // ---------------------------------------------------------------------------
  // deleteItem, togglePinItem, updateItem

  /** Deleting an absent id changes nothing. */
  lemma DeleteAbsentIsNoOp(s: seq<Item>, id: nat)
    requires forall j :: 0 <= j < |s| ==> s[j].id != id
    ensures Deleted(s, id) == s
  {
  }

  /** Deleting removes exactly the first item with the id, keeping the order
      of the rest. */
  lemma DeleteRemovesFirstMatch(s: seq<Item>, id: nat, i: nat)
    requires i < |s| && s[i].id == id
    requires forall j :: 0 <= j < i ==> s[j].id != id
    ensures Deleted(s, id) == s[..i] + s[i + 1..]
    ensures |Deleted(s, id)| == |s| - 1
  {
    FirstIndexAt(s, ById(id), i);
  }

  /** No two items share an id. */
  predicate UniqueIds(s: seq<Item>) {
    forall j, k :: 0 <= j < k < |s| ==> s[j].id != s[k].id
  }

  /** With unique ids, deleting leaves no item with that id, and deleting
      again is a no-op. */
  lemma DeleteIsIdempotent(s: seq<Item>, id: nat)
    requires UniqueIds(s)
    ensures forall j :: 0 <= j < |Deleted(s, id)| ==> Deleted(s, id)[j].id != id
    ensures Deleted(Deleted(s, id), id) == Deleted(s, id)
  {
    var r := Deleted(s, id);
    match FirstIndex(s, ById(id)) {
      case Some(i) =>
        forall j | 0 <= j < |r| ensures r[j].id != id {
          if j < i { assert r[j] == s[j]; } else { assert r[j] == s[j + 1] && j + 1 != i; }
        }
      case None =>
    }
    DeleteAbsentIsNoOp(r, id);
  }

  /** Two histories with the same ids position by position have the same
      first index for every id. */
  lemma FirstIdIndexSame(s: seq<Item>, r: seq<Item>, id: nat)
    requires |s| == |r|
    requires forall j :: 0 <= j < |s| ==> r[j].id == s[j].id
    ensures FirstIndex(r, ById(id)) == FirstIndex(s, ById(id))
  {
    match FirstIndex(s, ById(id)) {
      case Some(i) => FirstIndexAt(r, ById(id), i);
      case None =>
    }
  }

  /** Toggling flips only the pin flag of the first item with the id. */
  lemma ToggleFlipsOnlyFirstMatch(s: seq<Item>, id: nat, i: nat)
    requires i < |s| && s[i].id == id
    requires forall j :: 0 <= j < i ==> s[j].id != id
    ensures |Toggled(s, id)| == |s|
    ensures Toggled(s, id)[i] == Item(s[i].id, s[i].text, s[i].date, !s[i].isPinned)
    ensures forall j :: 0 <= j < |s| && j != i ==> Toggled(s, id)[j] == s[j]
  {
    FirstIndexAt(s, ById(id), i);
  }

  /** Toggling an absent id changes nothing. */
  lemma ToggleAbsentIsNoOp(s: seq<Item>, id: nat)
    requires forall j :: 0 <= j < |s| ==> s[j].id != id
    ensures Toggled(s, id) == s
  {
  }

  /** Toggling twice restores the history. */
  lemma ToggleTwiceRestores(s: seq<Item>, id: nat)
    ensures Toggled(Toggled(s, id), id) == s
  {
    var r := Toggled(s, id);
    FirstIdIndexSame(s, r, id);
  }

  /** Updating changes only the text of the first item with the id: length,
      order, and every id, date and pin flag stay as they were. */
  lemma UpdateChangesOnlyText(s: seq<Item>, id: nat, newText: string, i: nat)
    requires i < |s| && s[i].id == id
    requires forall j :: 0 <= j < i ==> s[j].id != id
    ensures |Updated(s, id, newText)| == |s|
    ensures Updated(s, id, newText)[i] == Item(s[i].id, newText, s[i].date, s[i].isPinned)
    ensures forall j :: 0 <= j < |s| && j != i ==> Updated(s, id, newText)[j] == s[j]
  {
    FirstIndexAt(s, ById(id), i);
  }

  /** Updating an absent id changes nothing. */
  lemma UpdateAbsentIsNoOp(s: seq<Item>, id: nat, newText: string)
    requires forall j :: 0 <= j < |s| ==> s[j].id != id
    ensures Updated(s, id, newText) == s
  {
  }

  /** `updateItem` does not look for another item with the new text, so it can
      break the "one item per text" property that `addItem` keeps. */
  lemma UpdateMayDuplicateText()
    ensures DistinctTexts([Item(1, "a", 1, false), Item(0, "b", 0, false)])
    ensures !DistinctTexts(Updated([Item(1, "a", 1, false), Item(0, "b", 0, false)], 0, "a"))
  {
    var s := [Item(1, "a", 1, false), Item(0, "b", 0, false)];
    FirstIndexAt(s, ById(0), 1);
    var r := Updated(s, 0, "a");
    assert r[0].text == r[1].text;
  }

  // ---------------------------------------------------------------------------
  // The invariant every operation keeps

  /** Every id is below the next fresh id and every date below the clock. */
  predicate Bounded(s: seq<Item>, nextId: nat, clock: nat) {
    forall j :: 0 <= j < |s| ==> s[j].id < nextId && s[j].date < clock
  }

  /** Ids are unique and dates strictly decrease: newest first. */
  predicate NewestFirst(s: seq<Item>) {
    forall j, k :: 0 <= j < k < |s| ==> s[j].id != s[k].id && s[j].date > s[k].date
  }

  /** The history invariant: within capacity, ids fresh-bounded and unique,
      items ordered from most to least recently inserted. */
  predicate Wellformed(s: seq<Item>, nextId: nat, clock: nat) {
    |s| <= MAX_ITEMS && Bounded(s, nextId, clock) && NewestFirst(s)
  }

  lemma RemoveAtKeepsOrder(s: seq<Item>, i: nat, nextId: nat, clock: nat)
    requires i < |s| && Bounded(s, nextId, clock) && NewestFirst(s)
    ensures Bounded(RemoveAt(s, i), nextId, clock) && NewestFirst(RemoveAt(s, i))
  {
    var r := RemoveAt(s, i);
    forall j, k | 0 <= j < k < |r| ensures r[j].id != r[k].id && r[j].date > r[k].date {
      var sj := if j < i then j else j + 1;
      var sk := if k < i then k else k + 1;
      assert r[j] == s[sj] && r[k] == s[sk] && sj < sk;
    }
  }

  lemma RemoveFirstKeepsOrder(s: seq<Item>, k: Key, nextId: nat, clock: nat)
    requires Bounded(s, nextId, clock) && NewestFirst(s)
    ensures Bounded(RemoveFirst(s, k), nextId, clock) && NewestFirst(RemoveFirst(s, k))
  {
    match FirstIndex(s, k) {
      case Some(i) => RemoveAtKeepsOrder(s, i, nextId, clock);
      case None =>
    }
  }

  /** An item newer than everything in the history may go in front of it. */
  lemma PrependKeepsOrder(it: Item, rest: seq<Item>)
    requires Bounded(rest, it.id, it.date) && NewestFirst(rest)
    ensures Bounded([it] + rest, it.id + 1, it.date + 1) && NewestFirst([it] + rest)
  {
    var front := [it] + rest;
    forall j, k | 0 <= j < k < |front| ensures front[j].id != front[k].id && front[j].date > front[k].date {
      assert front[k] == rest[k - 1];
      if j > 0 { assert front[j] == rest[j - 1]; }
    }
  }

  lemma AddKeepsWellformed(s: seq<Item>, text: string, nextId: nat, clock: nat)
    requires Wellformed(s, nextId, clock)
    ensures Wellformed(Added(s, NewItem(text, nextId, clock)), nextId + 1, clock + 1)
  {
    var it := NewItem(text, nextId, clock);
    var rest := RemoveFirst(s, ByText(text));
    RemoveFirstKeepsOrder(s, ByText(text), nextId, clock);
    PrependKeepsOrder(it, rest);
    var front := [it] + rest;
    assert Added(s, it) == front || Added(s, it) == front[..|front| - 1];
  }

  /** Lemma for the operations that keep every id and date in place. */
  lemma SameIdsAndDatesKeepWellformed(s: seq<Item>, r: seq<Item>, nextId: nat, clock: nat)
    requires Wellformed(s, nextId, clock)
    requires |r| == |s|
    requires forall j :: 0 <= j < |s| ==> r[j].id == s[j].id && r[j].date == s[j].date
    ensures Wellformed(r, nextId, clock)
  {
  }

  lemma DeleteKeepsWellformed(s: seq<Item>, id: nat, nextId: nat, clock: nat)
    requires Wellformed(s, nextId, clock)
    ensures Wellformed(Deleted(s, id), nextId, clock)
  {
    match FirstIndex(s, ById(id)) {
      case Some(i) => RemoveAtKeepsOrder(s, i, nextId, clock);
      case None =>
    }
  }

  lemma ToggleKeepsWellformed(s: seq<Item>, id: nat, nextId: nat, clock: nat)
    requires Wellformed(s, nextId, clock)
    ensures Wellformed(Toggled(s, id), nextId, clock)
  {
    SameIdsAndDatesKeepWellformed(s, Toggled(s, id), nextId, clock);
  }

  lemma UpdateKeepsWellformed(s: seq<Item>, id: nat, newText: string, nextId: nat, clock: nat)
    requires Wellformed(s, nextId, clock)
    ensures Wellformed(Updated(s, id, newText), nextId, clock)
  {
    SameIdsAndDatesKeepWellformed(s, Updated(s, id, newText), nextId, clock);
  }

  // ---------------------------------------------------------------------------
  // Starting the counters above a loaded history

  /** The smallest id above every id of the history. */
  function IdBound(s: seq<Item>): (n: nat)
    ensures forall j :: 0 <= j < |s| ==> s[j].id < n
  {
    if |s| == 0 then 0
    else
      var tail := IdBound(s[1..]);
      if s[0].id + 1 > tail then s[0].id + 1 else tail
  }

  /** The smallest date above every date of the history. */
  function DateBound(s: seq<Item>): (n: nat)
    ensures forall j :: 0 <= j < |s| ==> s[j].date < n
  {
    if |s| == 0 then 0
    else
      var tail := DateBound(s[1..]);
      if s[0].date + 1 > tail then s[0].date + 1 else tail
  }
}
