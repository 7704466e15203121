/** The query box's own Ctrl+H handling in `app.rs`. Text is a sequence of characters, so a
    character index is a position in it; `byte_index_at_char`'s mapping from character to byte
    offsets is the identity clamped to the end of the text. */
module TextEdit {
  import opened Wrappers

  /** `byte_index_at_char`: the position of the `i`-th character, or the end of the text when
      there are fewer characters. */
  function CharIndex(text: string, i: nat): (r: nat)
    ensures r <= |text|
    ensures i <= |text| ==> r == i
    ensures i > |text| ==> r == |text|
  {
    if i < |text| then i else |text|
  }

  /** `remove_char_range`: removes characters `start..end` (clamped to the text) and returns the
      remaining text and the removed characters. An empty or reversed range removes nothing. */
  function RemoveCharRange(text: string, start: nat, end: nat): (r: (string, string))
    ensures start >= end ==> r == (text, [])
    ensures start < end ==>
      var s := CharIndex(text, start);
      var e := CharIndex(text, end);
      && r.0 == text[..s] + text[e..]
      && r.1 == text[s..e]
    ensures |r.0| + |r.1| == |text|
  {
    if start >= end then (text, [])
    else
      var s := CharIndex(text, start);
      var e := CharIndex(text, end);
      (text[..s] + text[e..], text[s..e])
  }

  /** `insert_at_char`: inserts `value` before the `pos`-th character (at the end when the text
      is shorter). */
  function InsertAtChar(text: string, pos: nat, value: string): (r: string)
    ensures |r| == |text| + |value|
    ensures r[..CharIndex(text, pos)] == text[..CharIndex(text, pos)]
    ensures r[CharIndex(text, pos)..CharIndex(text, pos) + |value|] == value
    ensures r[CharIndex(text, pos) + |value|..] == text[CharIndex(text, pos)..]
  {
    var p := CharIndex(text, pos);
    text[..p] + value + text[p..]
  }

  /** Putting the removed characters back where they were taken restores the text. */
  lemma RemoveThenInsert(text: string, start: nat, end: nat)
    ensures var (rest, removed) := RemoveCharRange(text, start, end);
      InsertAtChar(rest, start, removed) == text
  {
    var (rest, removed) := RemoveCharRange(text, start, end);
    if start < end {
      var s := CharIndex(text, start);
      var e := CharIndex(text, end);
      assert CharIndex(rest, start) == s;
      assert rest[..s] + removed + rest[s..] == text[..s] + text[s..e] + text[e..];
      assert text[..s] + text[s..e] + text[e..] == text;
    } else {
      assert CharIndex(rest, start) <= |text|;
      assert text[..CharIndex(rest, start)] + text[CharIndex(rest, start)..] == text;
    }
  }

  /** `selection_range`: no selection when cursor and anchor coincide, else the range between
      them in order. */
  function SelectionRange(cursor: nat, anchor: nat): (r: Option<(nat, nat)>)
    ensures r.None? <==> cursor == anchor
    ensures r.Some? ==> r.value.0 < r.value.1
    ensures r.Some? ==> {r.value.0, r.value.1} == {cursor, anchor}
  {
    if cursor == anchor then None
    else if cursor < anchor then Some((cursor, anchor)) else Some((anchor, cursor))
  }

  /** What Ctrl+H leaves: the query, the cursor and anchor, and the two flags the key handler
      returns (text changed, cursor changed). */
  datatype Edit = Edit(query: string, cursor: nat, anchor: nat, textChanged: bool, cursorChanged: bool)

  /** `apply_ctrl_h_delete`: when the text widget already changed the text this frame nothing
      happens, so a backend that maps Ctrl+H to Backspace does not delete twice. Otherwise a
      selection is deleted, or else the character before the cursor; the cursor and the anchor
      both move to the start of what was deleted. At the start of the text nothing happens. */
  function ApplyCtrlHDelete(query: string, cursor: nat, anchor: nat, alreadyChanged: bool): (r: Edit)
    ensures alreadyChanged ==> r == Edit(query, cursor, anchor, false, false)
    ensures !alreadyChanged && cursor == anchor && cursor == 0 ==> r == Edit(query, cursor, anchor, false, false)
    ensures !alreadyChanged && (cursor != anchor || cursor > 0) ==>
      var lo := if cursor == anchor then cursor - 1 else if cursor < anchor then cursor else anchor;
      var hi := if cursor == anchor then cursor else if cursor < anchor then anchor else cursor;
      && r.textChanged && r.cursorChanged
      && r.cursor == lo && r.anchor == lo
      && (hi <= |query| ==> r.query == query[..lo] + query[hi..])
      && (hi <= |query| ==> |r.query| == |query| - (hi - lo))
  {
    if alreadyChanged then Edit(query, cursor, anchor, false, false)
    else
      match SelectionRange(cursor, anchor)
      case Some((lo, hi)) => Edit(RemoveCharRange(query, lo, hi).0, lo, lo, true, true)
      case None =>
        if cursor > 0 then Edit(RemoveCharRange(query, cursor - 1, cursor).0, cursor - 1, cursor - 1, true, true)
        else Edit(query, cursor, anchor, false, false)
  }

  /** What Ctrl+H deleted can be put back: inserting the deleted characters at the new cursor
      restores the query. */
  lemma CtrlHIsUndoable(query: string, cursor: nat, anchor: nat)
    requires cursor != anchor || cursor > 0
    ensures var lo := if cursor == anchor then cursor - 1 else if cursor < anchor then cursor else anchor;
      var hi := if cursor == anchor then cursor else if cursor < anchor then anchor else cursor;
      var r := ApplyCtrlHDelete(query, cursor, anchor, false);
      InsertAtChar(r.query, r.cursor, RemoveCharRange(query, lo, hi).1) == query
  {
    var lo := if cursor == anchor then cursor - 1 else if cursor < anchor then cursor else anchor;
    var hi := if cursor == anchor then cursor else if cursor < anchor then anchor else cursor;
    RemoveThenInsert(query, lo, hi);
  }

  /** The source's two Ctrl+H cases: "abcd" with the cursor at the end loses exactly its last
      character, and nothing is deleted when the widget already changed the text. */
  lemma CtrlHExamples()
    ensures ApplyCtrlHDelete("abcd", 4, 4, false) == Edit("abc", 3, 3, true, true)
    ensures ApplyCtrlHDelete("abc", 3, 3, true) == Edit("abc", 3, 3, false, false)
  {
    assert "abcd"[..3] + "abcd"[4..] == "abc";
  }
}
