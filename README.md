# Clipboard history store and pasteboard change detector

This project models `ClipboardManager`, the core of a clipboard manager for iOS.
The app and its keyboard extension both use it. It keeps a bounded,
deduplicated history of copied text snippets. The newest snippet comes first,
and the history holds at most 50 items. The whole history is saved as one
snapshot under a single key of a shared `UserDefaults` suite. A detector polls
the system pasteboard and adds each newly copied text.

Files:

- `optional.dfy`: `Option`, for Swift's optionals.
- `history.dfy` (module `ClipboardHistory`): `ClipboardItem` as the datatype
  `Item`.
  - The `firstIndex(where:)` search is a recursive function, `FirstIndex`, and a
    loop proved against it, `FirstIndexWhere`.
  - The list changes made by `addItem`, `deleteItem`, `togglePinItem` and
    `updateItem` are the functions `Added`, `Deleted`, `Toggled` and `Updated`.
  - The lemmas state deduplication, capacity, eviction, order, idempotence and
    involution. They also show that every operation keeps the history
    invariant `Wellformed`: at most 50 items, unique ids below the id counter,
    and dates strictly decreasing (newest first).
- `persistence.dfy` (module `Persistence`): the shared store is a map from
  keys to `Blob`s. JSON encoding is the identity on the item list. A value
  that does not decode is `Unreadable`.
- `detector.dfy` (module `ChangeDetector`): the two detector fields
  `lastPasteboardChangeCount` and `lastCopiedText` as a `Gate`.
  - `Accepts` is the guard of `checkClipboard`.
  - `Poll` is one `checkPasteboardChanges`.
  - `Copies` is the stream of texts that a run of polls hands to `addItem`.
- `manager.dfy` (module `Manager`): the class `ClipboardManager`. Its fields
  are `items` (a `seq<Item>`), `lastCopiedText`, `lastChangeCount` and the
  store `defaults` (a `map`). It has one method per operation, each with
  `modifies` on exactly the fields it changes. Each method's `ensures` gives
  the whole new state in terms of the functions above. Each method also keeps
  `Valid()`: the history and the saved snapshot are both `Wellformed`. Client
  methods at the end compose the operations: save then load, clear then load,
  and the "foo", "", "foo" copy sequence.

Modelling choices:

- **Ids and dates.** `UUID()` and `Date()` are two counters, `nextId` and
  `clock`. The constructor starts them above every id and date in the saved
  snapshot. The "dates strictly decrease" clause of `NewestFirst` (and so of
  `Wellformed`) therefore expresses insertion order through this counter,
  which advances on each `addItem`. It is not a property of `Date()`: a real
  wall clock can repeat a value or go backwards.
- **The pasteboard.** It is an input value: its change counter, its string and
  its `hasStrings` flag.
- **Deferred work.** Everything runs on the main queue. A closure deferred
  with `DispatchQueue.main.async` runs to completion right after the
  operation that scheduled it. As a consequence, every `saveItems` is followed
  by the reload that `notifyClipboardChanged` schedules. After any save,
  `lastCopiedText` is therefore the text of the first item.
- **Notifications.** The cross-process Darwin signal that `saveItems` posts is
  counted in the ghost field `darwinPosts`. In-process `NotificationCenter`
  posts are dropped.

Where the code differs from the obvious design, the model follows the code:

- `loadItems` leaves the history and `lastCopiedText` unchanged when the key
  is absent or the value does not decode. It does not empty the history.
- `clearAllItems` removes the key rather than writing an empty list. It posts
  only the in-process notification, not the cross-process signal.
- `updateItem` does not check for duplicate text. `UpdateMayDuplicateText`
  shows a history with distinct texts that stops being distinct after an
  update.
- The history is ordered by insertion only. Pinning never reorders it, and
  eviction drops the last item even when it is pinned.

## Model

| member | source | states |
|---|---|---|
| ClipboardHistory.FirstIndex | ClipboardManager/ClipboardManager.swift:111 | the result is the first position whose item matches the key; none means no item matches |
| ClipboardHistory.FirstIndexWhere | ClipboardManager/ClipboardManager.swift:153 | the loop returns the first matching position, or none when no item matches, and agrees with FirstIndex |
| ClipboardHistory.RemoveAt | ClipboardManager/ClipboardManager.swift:112 | `remove(at:)` shortens the list by one, keeps the items before the position, and shifts the items after it down by one |
| ClipboardHistory.HeadText | ClipboardManager/ClipboardManager.swift:131 | `items.first?.text` is none exactly for the empty list, and otherwise the first item's text |
| ClipboardHistory.NewItem | ClipboardManager/ClipboardManager.swift:16-21 | `ClipboardItem.init(text:)`: the new item carries the given text, the fresh id and the current date, and starts unpinned |
| ClipboardHistory.RemoveFirst | ClipboardManager/ClipboardManager.swift:111-113 | removing the first match leaves the list as it was when nothing matches, and otherwise removes exactly one item; every remaining item comes from the input |
| ClipboardHistory.Added | ClipboardManager/ClipboardManager.swift:107-119 | `addItem`'s list: the new item is first; the length grows by at most one and never past 50 from a list below 50; every other item comes from the old history |
| ClipboardHistory.Deleted | ClipboardManager/ClipboardManager.swift:163-165 | `deleteItem`'s list: one item shorter exactly when some item has the id, otherwise the same length; every remaining item comes from the old history |
| ClipboardHistory.Toggled | ClipboardManager/ClipboardManager.swift:175-177 | `togglePinItem`'s list: same length, same ids, texts and dates at every position; only an item with the id can differ |
| ClipboardHistory.Updated | ClipboardManager/ClipboardManager.swift:152-154 | `updateItem`'s list: same length, same ids, dates and pin flags at every position; only an item with the id can differ, and then its text is the new text |
| Persistence.Encode | ClipboardManager/ClipboardManager.swift:136 | `JSONEncoder().encode`, modelled as the identity on the item list; DecodeEncode proves that decoding gives the list back |
| Persistence.Decode | ClipboardManager/ClipboardManager.swift:129 | `JSONDecoder().decode`: a value that is not an encoded item list decodes to nothing; DecodeEncode and EncodeDecode prove it inverse to Encode |
| Manager.Loaded | ClipboardManager/ClipboardManager.swift:37-38 | the history `init()` starts from is the decodable snapshot under the key, or empty when there is none |
| ClipboardHistory.AddPutsNewItemFirst | ClipboardManager/ClipboardManager.swift:107-115 | after `addItem(t)`, item 0 is the freshly made item: the new id and date, text `t`, not pinned |
| ClipboardHistory.AddMovesDuplicateToFront | ClipboardManager/ClipboardManager.swift:110-115 | if position i holds the first item with text t, `addItem(t)` gives `[new] + s[..i] + s[i+1..]`: that one item goes and the rest keep their order and count |
| ClipboardHistory.AddNewTextEvictsLast | ClipboardManager/ClipboardManager.swift:115-119 | for a new text the item is prepended; when the list was full, exactly the last item is evicted by position, pinned or not |
| ClipboardHistory.AddRespectsCapacity | ClipboardManager/ClipboardManager.swift:111-119 | a list of at most 50 stays at most 50; a duplicate insert keeps the count; a new text adds one, up to 50 |
| ClipboardHistory.AddLeavesOneCopy | ClipboardManager/ClipboardManager.swift:111-115 | if at most one item had text t, exactly one has it after `addItem(t)` |
| ClipboardHistory.AddKeepsDistinctTexts | ClipboardManager/ClipboardManager.swift:111-119 | `addItem` keeps the property that no two items share a text, at any length |
| ClipboardHistory.ReinsertMovesToFront | ClipboardManager/ClipboardManager.swift:107-119 | inserting A, B, then A again gives [A, B], with the newer A first and B unchanged |
| ClipboardHistory.DeleteAbsentIsNoOp | ClipboardManager/ClipboardManager.swift:163-173 | deleting an id that no item has leaves the list unchanged |
| ClipboardHistory.DeleteRemovesFirstMatch | ClipboardManager/ClipboardManager.swift:164-165 | deleting removes exactly the first item with the id and keeps the order of the rest |
| ClipboardHistory.DeleteIsIdempotent | ClipboardManager/ClipboardManager.swift:163-166 | with unique ids, no item with the id remains, and deleting again changes nothing |
| ClipboardHistory.ToggleFlipsOnlyFirstMatch | ClipboardManager/ClipboardManager.swift:176-177 | only the first item with the id changes, and only its `isPinned`, which is negated |
| ClipboardHistory.ToggleAbsentIsNoOp | ClipboardManager/ClipboardManager.swift:175-181 | toggling an id that no item has leaves the list unchanged |
| ClipboardHistory.ToggleTwiceRestores | ClipboardManager/ClipboardManager.swift:175-178 | toggling the same id twice restores the list exactly |
| ClipboardHistory.UpdateChangesOnlyText | ClipboardManager/ClipboardManager.swift:152-154 | only the text of the first item with the id changes; id, date, pin, length and order are kept |
| ClipboardHistory.UpdateAbsentIsNoOp | ClipboardManager/ClipboardManager.swift:152-157 | updating an id that no item has leaves the list unchanged |
| ClipboardHistory.UpdateMayDuplicateText | ClipboardManager/ClipboardManager.swift:152-157 | an update can give two items the same text, because no duplicate check is made |
| ClipboardHistory.AddKeepsWellformed | ClipboardManager/ClipboardManager.swift:107-119 | with a fresh id and date, `addItem` keeps the invariant: capacity, unique ids, newest first |
| ClipboardHistory.DeleteKeepsWellformed | ClipboardManager/ClipboardManager.swift:163-166 | `deleteItem` keeps the history invariant |
| ClipboardHistory.ToggleKeepsWellformed | ClipboardManager/ClipboardManager.swift:175-178 | `togglePinItem` keeps the history invariant |
| ClipboardHistory.UpdateKeepsWellformed | ClipboardManager/ClipboardManager.swift:152-155 | `updateItem` keeps the history invariant (capacity, ids, order), though not distinct texts |
| Persistence.Stored | ClipboardManager/ClipboardManager.swift:128-129 | a snapshot is found only when the key is present and its value is the encoding of that snapshot |
| Persistence.DecodeEncode | ClipboardManager/ClipboardManager.swift:127-137 | decoding an encoded history gives it back |
| Persistence.EncodeDecode | ClipboardManager/ClipboardManager.swift:136 | re-encoding a decoded history gives the same blob |
| Persistence.SaveThenStored | ClipboardManager/ClipboardManager.swift:135-137 | after the history is written under the key, loading finds exactly that history |
| Persistence.ClearThenStored | ClipboardManager/ClipboardManager.swift:183-185 | after the key is removed, loading finds nothing, and every other key is untouched |
| ChangeDetector.Accepts | ClipboardManager/ClipboardManager.swift:95-98 | the guard of `checkClipboard`: the pasteboard has a string, it is not empty, it differs from the last copied text, and the pasteboard reports string content |
| ChangeDetector.Poll | ClipboardManager/ClipboardManager.swift:85-104 | a poll records the change count; it adds text exactly when the count changed and the guard holds, and then records that text |
| ChangeDetector.Copies | ClipboardManager/ClipboardManager.swift:85-104 | over any run of polls, no added text is empty, consecutive added texts differ, the first differs from the last copied text, and at most one text is added per poll |
| ChangeDetector.UnchangedCountCopiesNothing | ClipboardManager/ClipboardManager.swift:85-91 | polls that see no new change count add nothing |
| ChangeDetector.RepeatedTextCopiedOnce | ClipboardManager/ClipboardManager.swift:94-96 | repeated copies of one text add it at most once, and never when it is already the last copied text |
| ChangeDetector.FooEmptyFooCopiesOnce | ClipboardManager/ClipboardManager.swift:94-104 | the copies "foo", "", "foo" add "foo" exactly once |
| Manager.ClipboardManager.constructor | ClipboardManager/ClipboardManager.swift:37-40 | starts from the saved snapshot, or empty, then checks the pasteboard once; it is Valid when the snapshot is within capacity and newest first |
| Manager.ClipboardManager.LoadItems | ClipboardManager/ClipboardManager.swift:127-133 | a decodable snapshot replaces the history and sets the last copied text to its first text; otherwise nothing changes |
| Manager.ClipboardManager.NotifyClipboardChanged | ClipboardManager/ClipboardManager.swift:189-199 | the deferred reload from the store, with the effect of LoadItems |
| Manager.ClipboardManager.SaveItems | ClipboardManager/ClipboardManager.swift:135-150 | the store maps the key to the encoded history and no other key changes; one cross-process signal is posted; the history is unchanged |
| Manager.ClipboardManager.AddItem | ClipboardManager/ClipboardManager.swift:107-125 | the history becomes Added with a fresh id and date; it is saved; the last copied text is the new text; Valid is kept |
| Manager.ClipboardManager.UpdateItem | ClipboardManager/ClipboardManager.swift:152-157 | the history becomes Updated; it is saved only when the id is present, otherwise the store is untouched |
| Manager.ClipboardManager.DeleteItem | ClipboardManager/ClipboardManager.swift:163-173 | the history becomes Deleted; for an absent id the store, signals and last copied text are unchanged |
| Manager.ClipboardManager.TogglePinItem | ClipboardManager/ClipboardManager.swift:175-181 | the history becomes Toggled; it is saved only when the id is present |
| Manager.ClipboardManager.ClearAllItems | ClipboardManager/ClipboardManager.swift:183-187 | the history is empty and the key is removed from the store, not written as an empty list; no cross-process signal is posted |
| Manager.ClipboardManager.CheckClipboard | ClipboardManager/ClipboardManager.swift:94-105 | adds the pasteboard text exactly when it is present, non-empty, new and string content, and records it; otherwise nothing changes |
| Manager.ClipboardManager.CheckPasteboardChanges | ClipboardManager/ClipboardManager.swift:85-92 | the detector fields move as Poll says; an item is added exactly when Poll yields a text |
| Manager.SaveThenLoad | ClipboardManager/ClipboardManager.swift:127-137 | save followed by load leaves the history as saved, with the last copied text set to its first text |
| Manager.SaveThenReloadElsewhere | ClipboardManager/ClipboardManager.swift:37-40 | a new manager started on the saved store has the same history, when its pasteboard holds nothing the guard would add |
| Manager.ClearThenLoad | ClipboardManager/ClipboardManager.swift:183-187 | after clear, a load leaves the history empty because the key is gone |
| Manager.FooEmptyFoo | ClipboardManager/ClipboardManager.swift:85-104 | three polls seeing "foo", "", "foo" use exactly one new id and leave an unpinned "foo" first |

## Left out

- SwiftUI and UIKit views (`ContentView`, `OnboardingView`, `ClipboardView`)
  are not modelled: they only present data. This includes
  `ContentView.deleteItems`, which removes items by offset and writes the
  store without going through the manager.
- `KeyboardViewController` is not modelled. It is host plumbing, and its own
  change-count poll adds text without the last-copied-text check.
- Observer registration, the 0.5 s `Timer`, the pasteboard-changed and
  foreground observers, and the Darwin observer are left out. These are OS
  signalling. In the model, their effects are calls to `CheckClipboard`,
  `CheckPasteboardChanges` and `LoadItems`.
- Deferral with `DispatchQueue.main.async` is collapsed. A deferred closure
  runs right after the operation that scheduled it, so tasks from other
  events cannot interleave between the two.
- In-process `NotificationCenter` posts are dropped, including the payload of
  the delete notification. The Darwin signal is only counted.
- The last-write-wins race between the app and the keyboard extension is not
  modelled. It needs two processes writing one store, and this model is
  sequential with one store per manager.
- `UUID()` is a per-manager counter. Global uniqueness of ids written by
  another process is not modelled.
- The case where the `UserDefaults` suite is unavailable (`userDefaults` is
  nil) is not modelled; the suite is assumed to exist. In that case only the
  store's reads and writes do nothing: `saveItems` still schedules the reload
  and the Darwin signal, and `clearAllItems` still empties the list and
  notifies.
- Texts are compared as exact character sequences. Swift's `String ==`
  treats canonically equivalent strings (such as "é" written as one scalar or
  as "e" plus a combining accent) as equal. Deduplication in `addItem`
  (`Matches`, `CountText`, `DistinctTexts`) and the guard of `checkClipboard`
  (`Accepts`) are therefore modelled only up to that equivalence: where Swift
  would treat two such spellings as one text, the model keeps both.
- JSON encoding is the identity and never fails. The bytes and field layout
  of the encoding are not modelled.
- `shareItem` has an empty body. `deinit` only tears down observers and the
  timer.
