/** The shared app-group `UserDefaults` suite as the manager uses it: one key
    holding the whole history as one encoded snapshot.  JSON encoding is
    modelled as the identity on the item list; a value that does not decode
    as a list of items is `Unreadable`. */
module Persistence {
  import opened Optional
  import opened ClipboardHistory

  /** The key `saveItems` writes and `loadItems` reads. */
  const ITEMS_KEY: string := "clipboardItems"

  /** What `data(forKey:)` may find under a key. */
  datatype Blob = Json(items: seq<Item>) | Unreadable

  /** `JSONEncoder().encode(clipboardItems)`. */
  function Encode(s: seq<Item>): Blob {
    Json(s)
  }

  /** `JSONDecoder().decode([ClipboardItem].self, from:)`. */
  function Decode(b: Blob): (r: Option<seq<Item>>)
  {
    match b
    case Json(s) => Some(s)
    case Unreadable => None
  }

  /** What `loadItems` obtains from the store: nothing when the key is absent
      or its value does not decode. */
  function Stored(defaults: map<string, Blob>): (r: Option<seq<Item>>)
    ensures r.Some? ==> ITEMS_KEY in defaults && defaults[ITEMS_KEY] == Encode(r.value)
    ensures ITEMS_KEY !in defaults ==> r.None?
  {
    if ITEMS_KEY in defaults then Decode(defaults[ITEMS_KEY]) else None
  }

  /** Decoding an encoded history gives it back. */
  lemma DecodeEncode(s: seq<Item>)
    ensures Decode(Encode(s)) == Some(s)
  {
  }

  /** Encoding is stable: re-encoding what was decoded gives the same blob. */
  lemma EncodeDecode(b: Blob, s: seq<Item>)
    requires Decode(b) == Some(s)
    ensures Encode(s) == b
  {
  }

  /** `saveItems` followed by `loadItems` reads back what was saved, whatever
      the store held before. */
  lemma SaveThenStored(defaults: map<string, Blob>, s: seq<Item>)
    ensures Stored(defaults[ITEMS_KEY := Encode(s)]) == Some(s)
  {
  }

  /** After `clearAllItems` removes the key, `loadItems` finds nothing, and
      every other key of the store is untouched. */
  lemma ClearThenStored(defaults: map<string, Blob>)
    ensures Stored(defaults - {ITEMS_KEY}) == None
    ensures forall key :: key in defaults && key != ITEMS_KEY ==>
              key in defaults - {ITEMS_KEY} && (defaults - {ITEMS_KEY})[key] == defaults[key]
  {
  }
}
