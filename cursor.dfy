/** Cursor navigation and key dispatch (src/playground/Cursor.jsx:23-31, 54-81, 84-134), as
    transitions of the provider's state; pixel placement is not part of them. */
module Cursor {
  import opened Wrappers
  import opened Lines
  import opened Document

  datatype Direction = Left | Right

  /** The index into the flat text that getCurrentCharAtCursor reads. */
  function CursorIndex(s: EditorState, direction: Direction): int
  {
    if direction == Left then s.cursor - 1 else s.cursor
  }

  /** getCurrentCharAtCursor: `flatText[c - 1]` to the left, `flatText[c]` to the right;
      an index outside the flat text reads `undefined`. That character is the one inside the
      segment the column just past it resolves to. */
  function CurrentCharAtCursor(s: EditorState, direction: Direction): (r: Option<char>)
    requires Valid(s)
    ensures r.Some? <==> 0 <= CursorIndex(s, direction) < |Flat(s.lineData[s.activeLine].text)|
    ensures r.Some? ==> r.value == Flat(s.lineData[s.activeLine].text)[CursorIndex(s, direction)]
    ensures r.Some? ==> var text := s.lineData[s.activeLine].text;
      |text| > 0 && var info := Locate(text, CursorIndex(s, direction) + 1);
      && 1 <= info.positionInSegment <= |text[info.activeSegmentIndex].content|
      && r.value == text[info.activeSegmentIndex].content[info.positionInSegment - 1]
  {
    var text := s.lineData[s.activeLine].text;
    var flatText := Flat(text);
    var k := CursorIndex(s, direction);
    if 0 <= k < |flatText| then
      CharBeforeColumn(text, k + 1);
      Some(flatText[k])
    else None
  }

  /** moveLeft: at column 0 go to the end (the cached length) of the previous line, if any;
      otherwise one column left. */
  function MoveLeft(s: EditorState): (r: EditorState)
    requires Valid(s)
    ensures Valid(r) && r.lineData == s.lineData
    ensures CursorInLine(s) && NonNegativeLengths(s.lineData) ==> CursorInLine(r)
    ensures Coherent(s) ==> Coherent(r)
    ensures s.cursor == 0 && s.activeLine == 0 ==> r == s
    ensures s.cursor == 0 && s.activeLine > 0 ==>
      r.activeLine == s.activeLine - 1 && r.cursor == s.lineData[s.activeLine - 1].length
    ensures s.cursor != 0 ==> r.activeLine == s.activeLine && r.cursor == s.cursor - 1
  {
    if s.cursor == 0 then
      if s.activeLine > 0 then EditorState(s.lineData, s.activeLine - 1, s.lineData[s.activeLine - 1].length)
      else s
    else EditorState(s.lineData, s.activeLine, s.cursor - 1)
  }

  /** moveRight: at the cached length go to column 0 of the next line, if any; otherwise one
      column right. */
  function MoveRight(s: EditorState): (r: EditorState)
    requires Valid(s)
    ensures Valid(r) && r.lineData == s.lineData
    ensures CursorInLine(s) && NonNegativeLengths(s.lineData) ==> CursorInLine(r)
    ensures Coherent(s) ==> Coherent(r)
    ensures s.cursor == s.lineData[s.activeLine].length && s.activeLine == |s.lineData| - 1 ==> r == s
    ensures s.cursor == s.lineData[s.activeLine].length && s.activeLine < |s.lineData| - 1 ==>
      r.activeLine == s.activeLine + 1 && r.cursor == 0
    ensures s.cursor != s.lineData[s.activeLine].length ==> r.activeLine == s.activeLine && r.cursor == s.cursor + 1
  {
    if s.cursor == s.lineData[s.activeLine].length then
      if s.activeLine < |s.lineData| - 1 then EditorState(s.lineData, s.activeLine + 1, 0)
      else s
    else EditorState(s.lineData, s.activeLine, s.cursor + 1)
  }

  /** Moving left and then right returns to the same place, except at the very start. */
  lemma MoveRightUndoesMoveLeft(s: EditorState)
    requires Coherent(s) && !(s.activeLine == 0 && s.cursor == 0)
    ensures MoveRight(MoveLeft(s)) == s
  {
  }

  /** Moving right and then left returns to the same place, except at the very end. */
  lemma MoveLeftUndoesMoveRight(s: EditorState)
    requires Coherent(s)
    requires !(s.activeLine == |s.lineData| - 1 && s.cursor == s.lineData[s.activeLine].length)
    ensures MoveLeft(MoveRight(s)) == s
  {
  }

  /** ArrowUp: the previous line, clamped at line 0; the column is not touched. */
  function ArrowUp(s: EditorState): (r: EditorState)
    requires Valid(s)
    ensures Valid(r) && r.lineData == s.lineData && r.cursor == s.cursor
    ensures r.activeLine == if s.activeLine > 0 then s.activeLine - 1 else 0
  {
    if s.activeLine > 0 then EditorState(s.lineData, s.activeLine - 1, s.cursor) else s
  }

  /** ArrowDown: the next line, clamped at the last line; the column is not touched. */
  function ArrowDown(s: EditorState): (r: EditorState)
    requires Valid(s)
    ensures Valid(r) && r.lineData == s.lineData && r.cursor == s.cursor
    ensures r.activeLine == if s.activeLine < |s.lineData| - 1 then s.activeLine + 1 else |s.lineData| - 1
  {
    if s.activeLine < |s.lineData| - 1 then EditorState(s.lineData, s.activeLine + 1, s.cursor) else s
  }

  /** What a keydown leads to. */
  datatype Command =
    | MoveLeftKey | MoveRightKey | InsertKey | BackspaceKey | DeleteKey | EnterKey
    | ArrowUpKey | ArrowDownKey | IgnoredKey

  /** The if-chain of handleKeyDown. The named keys are all longer than one character, so
      each command has a plain condition of its own. */
  function Classify(key: string, ctrlKey: bool, metaKey: bool): (c: Command)
    ensures c == MoveLeftKey <==> key == "ArrowLeft"
    ensures c == MoveRightKey <==> key == "ArrowRight"
    ensures c == InsertKey <==> |key| == 1 && !ctrlKey && !metaKey
    ensures c == BackspaceKey <==> key == "Backspace"
    ensures c == DeleteKey <==> key == "Delete"
    ensures c == EnterKey <==> key == "Enter"
    ensures c == ArrowUpKey <==> key == "ArrowUp"
    ensures c == ArrowDownKey <==> key == "ArrowDown"
  {
    if key == "ArrowLeft" then MoveLeftKey
    else if key == "ArrowRight" then MoveRightKey
    else if |key| == 1 && !ctrlKey && !metaKey then InsertKey
    else if key == "Backspace" then BackspaceKey
    else if key == "Delete" then DeleteKey
    else if key == "Enter" then EnterKey
    else if key == "ArrowUp" then ArrowUpKey
    else if key == "ArrowDown" then ArrowDownKey
    else IgnoredKey
  }

  /** handleKeyDown: insertText(key) is updateActiveLine(key, "char"), deleteText is
      updateActiveLine("", "backspace" or "delete"), Enter is handleEnterPress. `None` is a
      TypeError thrown by the edit. */
  function KeyDown(s: EditorState, key: string, ctrlKey: bool, metaKey: bool): (r: Option<EditorState>)
    requires Valid(s)
    ensures r.Some? ==> Valid(r.value)
    ensures r.None? ==> Classify(key, ctrlKey, metaKey) in {InsertKey, BackspaceKey, DeleteKey}
    ensures Classify(key, ctrlKey, metaKey) !in {InsertKey, BackspaceKey, DeleteKey, EnterKey} ==>
      r.Some? && r.value.lineData == s.lineData
    ensures Classify(key, ctrlKey, metaKey) == IgnoredKey ==> r == Some(s)
    ensures Classify(key, ctrlKey, metaKey) == MoveLeftKey ==> r == Some(MoveLeft(s))
    ensures Classify(key, ctrlKey, metaKey) == MoveRightKey ==> r == Some(MoveRight(s))
    ensures Classify(key, ctrlKey, metaKey) == ArrowUpKey ==> r == Some(ArrowUp(s))
    ensures Classify(key, ctrlKey, metaKey) == ArrowDownKey ==> r == Some(ArrowDown(s))
    ensures Classify(key, ctrlKey, metaKey) == EnterKey ==> r == Some(EnterPress(s))
  {
    match Classify(key, ctrlKey, metaKey)
    case MoveLeftKey => Some(MoveLeft(s))
    case MoveRightKey => Some(MoveRight(s))
    case InsertKey => UpdateActiveLine(s, key, CharAction)
    case BackspaceKey => UpdateActiveLine(s, "", BackspaceAction)
    case DeleteKey => UpdateActiveLine(s, "", DeleteAction)
    case EnterKey => Some(EnterPress(s))
    case ArrowUpKey => Some(ArrowUp(s))
    case ArrowDownKey => Some(ArrowDown(s))
    case IgnoredKey => Some(s)
  }

  /** What the edit keys do to the active line at a cursor within its content: a printable key
      goes in at the cursor and the cursor moves past it; Backspace removes the character before
      the cursor and moves back over it, and does nothing at column 0; Delete removes that same
      character and leaves the cursor where it was. */
  lemma KeyDownEdits(s: EditorState, key: string, ctrlKey: bool, metaKey: bool)
    requires Valid(s)
    ensures var r := KeyDown(s, key, ctrlKey, metaKey);
      var text := s.lineData[s.activeLine].text; var flat := Flat(text); var c := s.cursor;
      Classify(key, ctrlKey, metaKey) == InsertKey && |text| > 0 && 0 <= c <= |flat| ==>
        && r.Some? && |key| == 1
        && Flat(r.value.lineData[s.activeLine].text) == flat[..c] + key + flat[c..]
        && r.value.cursor == c + 1
    ensures var r := KeyDown(s, key, ctrlKey, metaKey);
      var flat := Flat(s.lineData[s.activeLine].text); var c := s.cursor;
      Classify(key, ctrlKey, metaKey) == BackspaceKey && 0 < c <= |flat| ==>
        && r.Some?
        && Flat(r.value.lineData[s.activeLine].text) == flat[..c - 1] + flat[c..]
        && r.value.cursor == c - 1
    ensures var r := KeyDown(s, key, ctrlKey, metaKey);
      Classify(key, ctrlKey, metaKey) == BackspaceKey && s.cursor == 0 ==> r == Some(s)
    ensures var r := KeyDown(s, key, ctrlKey, metaKey);
      var flat := Flat(s.lineData[s.activeLine].text); var c := s.cursor;
      Classify(key, ctrlKey, metaKey) == DeleteKey && 0 < c <= |flat| ==>
        && r.Some?
        && Flat(r.value.lineData[s.activeLine].text) == flat[..c - 1] + flat[c..]
        && r.value.cursor == c
  {
    var r := KeyDown(s, key, ctrlKey, metaKey);
    match Classify(key, ctrlKey, metaKey)
    case InsertKey => InsertKeyEdits(s, key, ctrlKey, metaKey);
    case BackspaceKey => BackspaceKeyEdits(s, key, ctrlKey, metaKey);
    case DeleteKey => DeleteKeyEdits(s, key, ctrlKey, metaKey);
    case _ =>
  }

  lemma InsertKeyEdits(s: EditorState, key: string, ctrlKey: bool, metaKey: bool)
    requires Valid(s) && Classify(key, ctrlKey, metaKey) == InsertKey
    ensures var r := KeyDown(s, key, ctrlKey, metaKey);
      var text := s.lineData[s.activeLine].text; var flat := Flat(text); var c := s.cursor;
      |text| > 0 && 0 <= c <= |flat| ==>
        && r.Some?
        && Flat(r.value.lineData[s.activeLine].text) == flat[..c] + key + flat[c..]
        && r.value.cursor == c + 1
  {
    var line := s.lineData[s.activeLine];
    if |line.text| > 0 && 0 <= s.cursor <= SumLengths(line.text) {
      TypeAtCursor(s, key);
    }
  }

  lemma BackspaceKeyEdits(s: EditorState, key: string, ctrlKey: bool, metaKey: bool)
    requires Valid(s) && Classify(key, ctrlKey, metaKey) == BackspaceKey
    ensures var r := KeyDown(s, key, ctrlKey, metaKey);
      var flat := Flat(s.lineData[s.activeLine].text); var c := s.cursor;
      0 < c <= |flat| ==>
        && r.Some?
        && Flat(r.value.lineData[s.activeLine].text) == flat[..c - 1] + flat[c..]
        && r.value.cursor == c - 1
  {
    if 0 < s.cursor <= SumLengths(s.lineData[s.activeLine].text) {
      BackspaceAtCursor(s);
    }
  }

  lemma DeleteKeyEdits(s: EditorState, key: string, ctrlKey: bool, metaKey: bool)
    requires Valid(s) && Classify(key, ctrlKey, metaKey) == DeleteKey
    ensures var r := KeyDown(s, key, ctrlKey, metaKey);
      var flat := Flat(s.lineData[s.activeLine].text); var c := s.cursor;
      0 < c <= |flat| ==>
        && r.Some?
        && Flat(r.value.lineData[s.activeLine].text) == flat[..c - 1] + flat[c..]
        && r.value.cursor == c
  {
    if 0 < s.cursor <= SumLengths(s.lineData[s.activeLine].text) {
      DeleteAtCursor(s);
    }
  }

  /** Typing a printable key and pressing Backspace at column 1 or later keep a coherent state
      coherent, as do all the movement keys. */
  lemma KeyKeepsCoherent(s: EditorState, key: string, ctrlKey: bool, metaKey: bool)
    requires Coherent(s)
    requires Classify(key, ctrlKey, metaKey) in {MoveLeftKey, MoveRightKey, InsertKey, BackspaceKey}
    ensures var r := KeyDown(s, key, ctrlKey, metaKey); r.Some? ==> Coherent(r.value)
  {
    match Classify(key, ctrlKey, metaKey)
    case InsertKey => EditKeepsCoherent(s, key, CharAction);
    case BackspaceKey => EditKeepsCoherent(s, "", BackspaceAction);
    case _ =>
  }
}
