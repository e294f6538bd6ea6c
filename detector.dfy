/** The pasteboard change detector of ClipboardManager as a value: the two
    fields `lastPasteboardChangeCount` and `lastCopiedText`, the guard of
    `checkClipboard`, the change-count gate of `checkPasteboardChanges`, and
    the stream of texts a run of polls hands to `addItem`. */
module ChangeDetector {
  import opened Optional

  /** What one poll reads from `UIPasteboard.general`: its `changeCount`, its
      `string` and its `hasStrings` flag. */
  datatype Pasteboard = Pasteboard(changeCount: int, text: Option<string>, hasStrings: bool)

  /** The detector's state: `lastPasteboardChangeCount` and `lastCopiedText`. */
  datatype Gate = Gate(lastCount: int, lastText: Option<string>)

  /** The guard of `checkClipboard`: some text, not empty, different from the
      last copied text, and the pasteboard reports string content. */
  predicate Accepts(pasteboard: Pasteboard, lastText: Option<string>) {
    && pasteboard.text.Some?
    && |pasteboard.text.value| > 0
    && pasteboard.text != lastText
    && pasteboard.hasStrings
  }

  /** One `checkPasteboardChanges`: the new gate and the text added, if any. */
  function Poll(g: Gate, pasteboard: Pasteboard): (r: (Gate, Option<string>))
    ensures r.0.lastCount == pasteboard.changeCount
    ensures r.1.Some? <==> pasteboard.changeCount != g.lastCount && Accepts(pasteboard, g.lastText)
    ensures r.1.Some? ==> r.1 == pasteboard.text && r.0.lastText == pasteboard.text
    ensures r.1.None? ==> r.0.lastText == g.lastText
  {
    if pasteboard.changeCount == g.lastCount then (g, None)
    else if Accepts(pasteboard, g.lastText) then
      (Gate(pasteboard.changeCount, pasteboard.text), pasteboard.text)
    else (Gate(pasteboard.changeCount, g.lastText), None)
  }

  /** The texts a sequence of polls hands to `addItem`, in order.  None is
      empty, two consecutive ones always differ, and the first differs from
      the text the detector last recorded. */
  function Copies(g: Gate, trace: seq<Pasteboard>): (out: seq<string>)
    ensures |out| <= |trace|
    ensures forall k :: 0 <= k < |out| ==> |out[k]| > 0
    ensures forall k :: 0 < k < |out| ==> out[k - 1] != out[k]
    ensures |out| > 0 ==> Some(out[0]) != g.lastText
    decreases |trace|
  {
    if |trace| == 0 then []
    else
      var r := Poll(g, trace[0]);
      match r.1
      case None => Copies(r.0, trace[1..])
      case Some(t) => [t] + Copies(r.0, trace[1..])
  }

  /** Polls that see no new change count add nothing and change nothing. */
  lemma {:induction false} UnchangedCountCopiesNothing(g: Gate, trace: seq<Pasteboard>)
    requires forall k :: 0 <= k < |trace| ==> trace[k].changeCount == g.lastCount
    ensures Copies(g, trace) == []
  {
    if |trace| > 0 {
      assert Poll(g, trace[0]) == (g, None);
      UnchangedCountCopiesNothing(g, trace[1..]);
    }
  }

  /** However often the same text is copied again, it is added at most once,
      and not at all when it is already the last copied text. */
  lemma {:induction false} RepeatedTextCopiedOnce(g: Gate, trace: seq<Pasteboard>, t: string)
    requires forall k :: 0 <= k < |trace| ==> trace[k].text == Some(t)
    ensures |Copies(g, trace)| <= 1
    ensures g.lastText == Some(t) ==> Copies(g, trace) == []
    decreases |trace|
  {
    if |trace| > 0 {
      var r := Poll(g, trace[0]);
      assert trace[1..][0..] == trace[1..];
      assert forall k :: 0 <= k < |trace[1..]| ==> trace[1..][k] == trace[k + 1];
      RepeatedTextCopiedOnce(r.0, trace[1..], t);
      if r.1.Some? {
        assert r.0.lastText == Some(t);
      } else {
        assert r.0.lastText == g.lastText;
      }
    }
  }

  /** Copying "foo", then "", then "foo" again adds "foo" exactly once. */
  lemma FooEmptyFooCopiesOnce(g: Gate, c1: int, c2: int, c3: int)
    requires g.lastText != Some("foo")
    requires c1 != g.lastCount && c2 != c1 && c3 != c2
    ensures Copies(g, [Pasteboard(c1, Some("foo"), true), Pasteboard(c2, Some(""), true),
                       Pasteboard(c3, Some("foo"), true)]) == ["foo"]
  {
    var trace := [Pasteboard(c1, Some("foo"), true), Pasteboard(c2, Some(""), true),
                  Pasteboard(c3, Some("foo"), true)];
    var g1 := Gate(c1, Some("foo"));
    var g2 := Gate(c2, Some("foo"));
    var g3 := Gate(c3, Some("foo"));
    assert Poll(g, trace[0]) == (g1, Some("foo"));
    assert Poll(g1, trace[1]) == (g2, None);
    assert Poll(g2, trace[2]) == (g3, None);
    assert Copies(g3, trace[3..]) == [];
    assert Copies(g2, trace[2..]) == [] by {
      assert trace[2..][1..] == trace[3..];
    }
    assert Copies(g1, trace[1..]) == [] by {
      assert trace[1..][1..] == trace[2..];
    }
  }
}
