/** `ClipboardManager`: the history in `clipboardItems`, the shared store it
    is saved to, and the pasteboard detector that feeds it.

    All of its work runs on the main queue.  A closure it defers with
    `DispatchQueue.main.async` is run here to completion right after the
    operation that scheduled it, before the next event.  In particular, every
    save is followed by the reload that `notifyClipboardChanged` schedules.
    In-process `NotificationCenter` posts are dropped.  The cross-process
    Darwin signal that `saveItems` posts is counted in the ghost field
    `darwinPosts`. */
module Manager {
  import opened Optional
  import opened ClipboardHistory
  import opened Persistence
  import opened ChangeDetector

  class ClipboardManager {
    /** `clipboardItems`, newest first. */
    var items: seq<Item>
    var lastCopiedText: Option<string>
    /** `lastPasteboardChangeCount`. */
    var lastChangeCount: int
    /** The app-group `UserDefaults` suite, shared with the keyboard extension. */
    var defaults: map<string, Blob>
    /** Where `UUID()` and `Date()` come from: each new item takes the current
        value of both counters, and both then advance. */
    var nextId: nat
    var clock: nat
    /** Cross-process "data changed" signals posted so far. */
    ghost var darwinPosts: nat

    /** The history and the saved snapshot satisfy the history invariant. */
    ghost predicate Valid()
      reads this
    {
      && Wellformed(items, nextId, clock)
      && (Stored(defaults).Some? ==> Wellformed(Stored(defaults).value, nextId, clock))
    }

    /** `init()`: load the saved history, then check the pasteboard once. */
    constructor (store: map<string, Blob>, pasteboard: Pasteboard)
      ensures lastChangeCount == pasteboard.changeCount
      ensures !Accepts(pasteboard, HeadText(Loaded(store))) ==>
                && items == Loaded(store)
                && lastCopiedText == HeadText(Loaded(store))
                && defaults == store && darwinPosts == 0
      ensures Accepts(pasteboard, HeadText(Loaded(store))) ==>
                && items == Added(Loaded(store), NewItem(pasteboard.text.value, IdBound(Loaded(store)), DateBound(Loaded(store))))
                && lastCopiedText == pasteboard.text
                && defaults == store[ITEMS_KEY := Encode(items)] && darwinPosts == 1
      ensures (Stored(store).Some? ==> |Stored(store).value| <= MAX_ITEMS && NewestFirst(Stored(store).value)) ==> Valid()
    {
      items := [];
      lastCopiedText := None;
      lastChangeCount := pasteboard.changeCount;
      defaults := store;
      nextId := IdBound(Loaded(store));
      clock := DateBound(Loaded(store));
      darwinPosts := 0;
      new;
      LoadItems();
      ghost var loaded := items;
      assert loaded == Loaded(store);
      assert lastCopiedText == HeadText(loaded);
      assert nextId == IdBound(loaded) && clock == DateBound(loaded);
      assert defaults == store;
      LoadedIsBounded(store);
      ghost var snapshotOk := Stored(store).Some? ==> |Stored(store).value| <= MAX_ITEMS && NewestFirst(Stored(store).value);
      if snapshotOk {
        assert Wellformed(loaded, nextId, clock);
        assert Valid();
      }
      ghost var validBefore := Valid();
      CheckClipboard(pasteboard);
      assert validBefore ==> Valid();
    }

    /** `loadItems`: replace the history by the saved snapshot and remember its
        first text.  When the key is absent or does not decode, nothing changes
        (the history is not cleared). */
    method LoadItems()
      modifies this`items, this`lastCopiedText
      ensures Stored(defaults).Some? ==> items == Stored(defaults).value && lastCopiedText == HeadText(items)
      ensures Stored(defaults).None? ==> items == old(items) && lastCopiedText == old(lastCopiedText)
      ensures old(Valid()) ==> Valid()
    {
      if ITEMS_KEY in defaults {
        var decoded := Decode(defaults[ITEMS_KEY]);
        if decoded.Some? {
          items := decoded.value;
          lastCopiedText := HeadText(items);
        }
      }
    }

    /** `notifyClipboardChanged`: its deferred closure reloads from the store. */
    method NotifyClipboardChanged()
      modifies this`items, this`lastCopiedText
      ensures Stored(defaults).Some? ==> items == Stored(defaults).value && lastCopiedText == HeadText(items)
      ensures Stored(defaults).None? ==> items == old(items) && lastCopiedText == old(lastCopiedText)
      ensures old(Valid()) ==> Valid()
    {
      LoadItems();
    }

    /** `saveItems`: write the whole history under the one key and signal the
        other process; the reload that follows finds what was written. */
    method SaveItems()
      modifies this`items, this`defaults, this`lastCopiedText, this`darwinPosts
      ensures defaults == old(defaults)[ITEMS_KEY := Encode(old(items))]
      ensures items == old(items) && lastCopiedText == HeadText(items)
      ensures darwinPosts == old(darwinPosts) + 1
      ensures Valid() <==> Wellformed(items, nextId, clock)
    {
      defaults := defaults[ITEMS_KEY := Encode(items)];
      darwinPosts := darwinPosts + 1;
      NotifyClipboardChanged();
    }

    /** `addItem`. */
    method AddItem(text: string)
      modifies this`items, this`defaults, this`lastCopiedText, this`nextId, this`clock, this`darwinPosts
      ensures items == Added(old(items), NewItem(text, old(nextId), old(clock)))
      ensures nextId == old(nextId) + 1 && clock == old(clock) + 1
      ensures defaults == old(defaults)[ITEMS_KEY := Encode(items)]
      ensures lastCopiedText == Some(text)
      ensures darwinPosts == old(darwinPosts) + 1
      ensures old(Valid()) ==> Valid()
    {
      var item := NewItem(text, nextId, clock);
      ghost var wasValid := Valid();
      if wasValid {
        AddKeepsWellformed(items, text, nextId, clock);
      }
      AddPutsNewItemFirst(items, text, nextId, clock);
      nextId := nextId + 1;
      clock := clock + 1;
      // Swift arrays are values: the edits below work on the array and the
      // field then holds the result.
      var list := items;
      var existing := FirstIndexWhere(list, ByText(text));
      if existing.Some? {
        list := RemoveAt(list, existing.value);
      }
      assert list == RemoveFirst(old(items), ByText(text));
      list := [item] + list;
      if |list| > MAX_ITEMS {
        list := list[..|list| - 1];
      }
      assert list == Added(old(items), item);
      items := list;
      SaveItems();
    }

    /** `updateItem`: new text for the first item with the same id, saved only
        when there is one.  No duplicate-text check is made. */
    method UpdateItem(item: Item, newText: string)
      modifies this`items, this`defaults, this`lastCopiedText, this`darwinPosts
      ensures items == Updated(old(items), item.id, newText)
      ensures FirstIndex(old(items), ById(item.id)).None? ==>
                defaults == old(defaults) && lastCopiedText == old(lastCopiedText) && darwinPosts == old(darwinPosts)
      ensures FirstIndex(old(items), ById(item.id)).Some? ==>
                && defaults == old(defaults)[ITEMS_KEY := Encode(items)]
                && lastCopiedText == HeadText(items)
                && darwinPosts == old(darwinPosts) + 1
      ensures old(Valid()) ==> Valid()
    {
      if Valid() {
        UpdateKeepsWellformed(items, item.id, newText, nextId, clock);
      }
      var index := FirstIndexWhere(items, ById(item.id));
      if index.Some? {
        items := items[index.value := items[index.value].(text := newText)];
        SaveItems();
      }
    }

    /** `deleteItem`: remove the first item with the same id, saved only when
        there is one. */
    method DeleteItem(item: Item)
      modifies this`items, this`defaults, this`lastCopiedText, this`darwinPosts
      ensures items == Deleted(old(items), item.id)
      ensures FirstIndex(old(items), ById(item.id)).None? ==>
                defaults == old(defaults) && lastCopiedText == old(lastCopiedText) && darwinPosts == old(darwinPosts)
      ensures FirstIndex(old(items), ById(item.id)).Some? ==>
                && defaults == old(defaults)[ITEMS_KEY := Encode(items)]
                && lastCopiedText == HeadText(items)
                && darwinPosts == old(darwinPosts) + 1
      ensures old(Valid()) ==> Valid()
    {
      if Valid() {
        DeleteKeepsWellformed(items, item.id, nextId, clock);
      }
      var index := FirstIndexWhere(items, ById(item.id));
      if index.Some? {
        items := RemoveAt(items, index.value);
        SaveItems();
      }
    }

    /** `togglePinItem`: flip the pin of the first item with the same id, saved
        only when there is one. */
    method TogglePinItem(item: Item)
      modifies this`items, this`defaults, this`lastCopiedText, this`darwinPosts
      ensures items == Toggled(old(items), item.id)
      ensures FirstIndex(old(items), ById(item.id)).None? ==>
                defaults == old(defaults) && lastCopiedText == old(lastCopiedText) && darwinPosts == old(darwinPosts)
      ensures FirstIndex(old(items), ById(item.id)).Some? ==>
                && defaults == old(defaults)[ITEMS_KEY := Encode(items)]
                && lastCopiedText == HeadText(items)
                && darwinPosts == old(darwinPosts) + 1
      ensures old(Valid()) ==> Valid()
    {
      if Valid() {
        ToggleKeepsWellformed(items, item.id, nextId, clock);
      }
      var index := FirstIndexWhere(items, ById(item.id));
      if index.Some? {
        items := items[index.value := items[index.value].(isPinned := !items[index.value].isPinned)];
        SaveItems();
        NotifyClipboardChanged();
      }
    }

    /** `clearAllItems`: empty the history and remove the key from the store
        (rather than write an empty list).  The reload that follows finds no
        key and leaves the history empty.  No cross-process signal is sent. */
    method ClearAllItems()
      modifies this`items, this`defaults, this`lastCopiedText
      ensures items == []
      ensures defaults == old(defaults) - {ITEMS_KEY} && Stored(defaults) == None
      ensures lastCopiedText == old(lastCopiedText)
      ensures old(Valid()) ==> Valid()
    {
      items := [];
      defaults := defaults - {ITEMS_KEY};
      NotifyClipboardChanged();
    }

    /** `checkClipboard`: add the pasteboard's text when it passes the guard,
        after recording it as the last copied text. */
    method CheckClipboard(pasteboard: Pasteboard)
      modifies this`items, this`defaults, this`lastCopiedText, this`nextId, this`clock, this`darwinPosts
      ensures !Accepts(pasteboard, old(lastCopiedText)) ==>
                && items == old(items) && defaults == old(defaults) && lastCopiedText == old(lastCopiedText)
                && nextId == old(nextId) && clock == old(clock) && darwinPosts == old(darwinPosts)
      ensures Accepts(pasteboard, old(lastCopiedText)) ==>
                && items == Added(old(items), NewItem(pasteboard.text.value, old(nextId), old(clock)))
                && defaults == old(defaults)[ITEMS_KEY := Encode(items)]
                && lastCopiedText == pasteboard.text
                && nextId == old(nextId) + 1 && clock == old(clock) + 1
                && darwinPosts == old(darwinPosts) + 1
      ensures old(Valid()) ==> Valid()
    {
      if pasteboard.text.Some? {
        var text := pasteboard.text.value;
        if |text| > 0 && Some(text) != lastCopiedText {
          if pasteboard.hasStrings {
            lastCopiedText := Some(text);
            AddItem(text);
          }
        }
      }
    }

    /** `checkPasteboardChanges`: only a new change count triggers
        `checkClipboard`, and the count is recorded first.  The detector's two
        fields move exactly as `Poll` says. */
    method CheckPasteboardChanges(pasteboard: Pasteboard)
      modifies this`items, this`defaults, this`lastCopiedText, this`lastChangeCount, this`nextId, this`clock, this`darwinPosts
      ensures Gate(lastChangeCount, lastCopiedText) == Poll(Gate(old(lastChangeCount), old(lastCopiedText)), pasteboard).0
      ensures Poll(Gate(old(lastChangeCount), old(lastCopiedText)), pasteboard).1.None? ==>
                && items == old(items) && defaults == old(defaults)
                && nextId == old(nextId) && clock == old(clock) && darwinPosts == old(darwinPosts)
      ensures Poll(Gate(old(lastChangeCount), old(lastCopiedText)), pasteboard).1.Some? ==>
                && items == Added(old(items), NewItem(pasteboard.text.value, old(nextId), old(clock)))
                && defaults == old(defaults)[ITEMS_KEY := Encode(items)]
                && nextId == old(nextId) + 1 && clock == old(clock) + 1
                && darwinPosts == old(darwinPosts) + 1
      ensures old(Valid()) ==> Valid()
    {
      if pasteboard.changeCount != lastChangeCount {
        lastChangeCount := pasteboard.changeCount;
        CheckClipboard(pasteboard);
      }
    }
  }

  /** The history `init()` starts from: the saved snapshot, or empty. */
  function Loaded(store: map<string, Blob>): (s: seq<Item>)
    ensures Stored(store).Some? ==> s == Stored(store).value
    ensures Stored(store).None? ==> s == []
  {
    match Stored(store)
    case Some(saved) => saved
    case None => []
  }

  /** The counters `init()` starts from lie above the loaded history. */
  lemma LoadedIsBounded(store: map<string, Blob>)
    ensures Bounded(Loaded(store), IdBound(Loaded(store)), DateBound(Loaded(store)))
  {
  }

  // ---------------------------------------------------------------------------
  // Clients: what callers of the manager can rely on

  /** `saveItems` then `loadItems`: the history is what was saved and the last
      copied text is its first text. */
  method SaveThenLoad(m: ClipboardManager)
    modifies m
    ensures m.items == old(m.items)
    ensures m.lastCopiedText == HeadText(old(m.items))
    ensures Stored(m.defaults) == Some(old(m.items))
  {
    m.SaveItems();
    m.LoadItems();
  }

  /** A second manager started on the store a first one saved to sees the same
      history, provided its pasteboard holds nothing the guard would add, such
      as the last copied text again. */
  method SaveThenReloadElsewhere(m: ClipboardManager, pasteboard: Pasteboard) returns (other: ClipboardManager)
    requires !Accepts(pasteboard, HeadText(m.items))
    modifies m
    ensures fresh(other)
    ensures other.items == old(m.items)
    ensures other.lastCopiedText == HeadText(old(m.items))
  {
    m.SaveItems();
    other := new ClipboardManager(m.defaults, pasteboard);
  }

  /** `clearAllItems` then `loadItems`: the history stays empty. */
  method ClearThenLoad(m: ClipboardManager)
    modifies m
    ensures m.items == []
    ensures ITEMS_KEY !in m.defaults
  {
    m.ClearAllItems();
    m.LoadItems();
  }

  /** Three polls that see "foo", "" and "foo" under three new change counts
      create exactly one item, "foo", at the front. */
  method FooEmptyFoo(m: ClipboardManager, c1: int, c2: int, c3: int)
    requires m.lastCopiedText != Some("foo")
    requires c1 != m.lastChangeCount && c2 != c1 && c3 != c2
    modifies m
    ensures m.nextId == old(m.nextId) + 1
    ensures |m.items| > 0 && m.items[0].text == "foo" && !m.items[0].isPinned
    ensures m.lastChangeCount == c3
  {
    m.CheckPasteboardChanges(Pasteboard(c1, Some("foo"), true));
    AddPutsNewItemFirst(old(m.items), "foo", old(m.nextId), old(m.clock));
    m.CheckPasteboardChanges(Pasteboard(c2, Some(""), true));
    m.CheckPasteboardChanges(Pasteboard(c3, Some("foo"), true));
  }
}
