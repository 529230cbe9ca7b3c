# Line editor core: segments, lines, cursor

A Dafny model of the editing core of a browser rich-text line editor. Its source is
`src/context/EditorProvider.jsx` (the document state and its edits) and
`src/playground/Cursor.jsx` (cursor movement and key dispatch).

A document is a sequence of lines. A line (`Lines.Line`) is a sequence of styled segments
(`Segments.Segment`: content plus `Styles`) together with a cached `length` that the code
maintains by hand. The editor state (`Document.EditorState`) is the line data, the active line
and the cursor column.

Modules:

- `JsText`: JavaScript's `String.prototype.slice`, including negative and too-large arguments.
  With it, every column the code can reach has a defined result.
- `Segments`: `createUpdatedSegment`, `mergeSegments`, and the split of one segment done by Enter.
- `Lines`:
  - the flat text of a line (`Flat`) and the `reduce` over segment lengths (`SumLengths`);
  - `findActiveSegment`, written as a `for` loop with early return (`FindActiveSegment`) and
    proved equal to the recursive specification `Locate`;
  - `handleInsertText`, `handleBackspace`, and the before/after lines built by Enter (`SplitLine`).
- `Document`: the provider's transitions `UpdateActiveLine` and `EnterPress` on state values,
  plus the lemmas about them.
- `Cursor`: `getCurrentCharAtCursor`, `moveLeft`, `moveRight`, ArrowUp/ArrowDown and the
  `handleKeyDown` dispatch, as transitions of the same state.
- `Editor`: the class `EditorProvider`. Its fields `lineData`, `activeLine` and `cursor` are
  updated in place by the handlers. Each method is proved to produce exactly the state the
  matching `Document`/`Cursor` transition gives.

A `TypeError` in the code, which happens when `findActiveSegment` reads `text[-1].content` on a
line with no segments, is `None` in the transitions. The methods report it as `thrown`, with
nothing changed.

### Where the code differs from the intended design

The model follows the code. It differs from the editor's design description in these places:

- **Enter at the end of the line.** The code appends the empty line at the end of the document,
  not after the active line. It also leaves the column unchanged instead of moving it to 0.
  `Document.EnterAtEndLeavesCursorPastLine` shows the cursor then lies past the end of its line.
  `Document.EnterThenBackspaceFromInitial` shows what happens next: a Backspace sets that line's
  cached length to -1.
- **Enter at column 0 of a non-empty line.** The before-line gets no segments at all, where the
  design asks for an empty placeholder segment. On that line, typing, "delete", and Backspace
  at a column above 0 all throw at line 76. Backspace at column 0 returns early, at line 173,
  and Enter takes the createLine branch.
- **Boundary columns.** A boundary column belongs to the segment on its left, because line 65
  tests `>=`. One consequence: backspace's merge branch is unreachable for columns within the
  line (`Lines.MergeBranchUnreachable`).
- **Backspace at column 0.** It does nothing; it never joins lines. The code has no line-merge
  operation and no colour-change operation.
- **"delete" is not a forward delete.** It runs the backspace path without moving the cursor.
  At column 0 that path calls `slice(0, -1)` (`Document.DeleteAtColumnZero`).
- **The cached `length` is not recomputed.** Insert and backspace adjust it by one. The merge
  branch and a backspace on an empty segment leave it wrong. Only Enter recomputes it from the
  segments.

## Model

| member | source | states |
|---|---|---|
| `Segments.CreateUpdatedSegment` | src/context/EditorProvider.jsx:80-91 | Styles are kept. An insertion adds exactly the inserted text. At a position inside the content an insertion is the ordinary splice, and a deletion at 1..length removes exactly the character before the position. A deletion at position 0 (`slice(0, -1)`) gives all but the last character followed by the whole content. |
| `Segments.MergeSegments` | src/context/EditorProvider.jsx:93-96 | The merged segment carries the left segment's styles. Its content is the left content followed by the right content. `SplitSegment`'s round trip and `HandleBackspace`'s merge branch are stated through it. |
| `Segments.SplitSegment` | src/context/EditorProvider.jsx:233-246 | Both halves keep the segment's styles. Merging them with `MergeSegments` (left styles win) gives back the original segment, for every position. Within the content, the before-half is as long as the position. |
| `Lines.Flat` | src/playground/Cursor.jsx:25 | The `join('')` of the segment contents. It has no contract of its own; `SumLengths`, `InsertAtColumn`, `BackspaceAtColumn`, `SplitAtColumn`, `CharBeforeColumn` and `CurrentCharAtCursor` state what the edits and lookups do to it. |
| `Lines.SumLengths` | src/context/EditorProvider.jsx:253-258 | The reduce over content lengths equals the length of the joined flat text. |
| `Lines.Locate` | src/context/EditorProvider.jsx:60-78 | On a line with at least one segment, the resolved segment index is always in range. |
| `Lines.FindActiveSegment` | src/context/EditorProvider.jsx:60-78 | The loop with early return yields `None` (the TypeError of line 76) on a line without segments, and `Locate` otherwise. |
| `Lines.Resolve` | src/context/EditorProvider.jsx:59-78 | The result of findActiveSegment is undefined (the TypeError of line 76) exactly when the line has no segments. Otherwise it is a segment index within the line. |
| `Lines.LocateFirstFit` | src/context/EditorProvider.jsx:63-77 | Every segment before the result ends before the column. If the result's end reaches the column, the offset is the column minus the preceding lengths. Otherwise the result is the last segment at its own length. |
| `Lines.LocateRoundTrip` | src/context/EditorProvider.jsx:60-72 | For 0 <= column <= total, the lengths of the preceding segments plus the offset equal the column, and 0 <= offset <= that segment's length. |
| `Lines.LocateOwnsBoundaryLeft` | src/context/EditorProvider.jsx:65-69 | Column 0 resolves to (0, 0). Every later column within the line resolves to an offset of at least 1: a boundary belongs to the left segment. |
| `Lines.LocateBeyondEnd` | src/context/EditorProvider.jsx:74-77 | A column past the total resolves to the last segment at its own content length. |
| `Lines.MergeBranchUnreachable` | src/context/EditorProvider.jsx:136-151 | For a column within the line, the resolution never has offset 0 in a segment other than the first, so the merge branch cannot run. |
| `Lines.CharBeforeColumn` | src/playground/Cursor.jsx:25-27 | The flat-text character just left of a column within the line is the resolved segment's character at offset - 1. |
| `Lines.HandleInsertText` | src/context/EditorProvider.jsx:115-131 | Same segment count. Every segment except the resolved one is unchanged, and the resolved one keeps its styles. The cached length grows by one, and the content sum by the inserted text's length. |
| `Lines.HandleBackspace` | src/context/EditorProvider.jsx:133-168 | The cached length drops by one on both branches. Merge branch: one segment fewer, the same flat text, the segments before and after in place, the left styles kept, and a previously correct cache made wrong. Deletion branch: same count, every other segment unchanged, the styles kept. |
| `Lines.SplitLine` | src/context/EditorProvider.jsx:230-259 | The two lines' flat texts concatenate to the original. Both lengths equal their content sums. The before-line is the segments before the resolved one plus at most one non-empty half carrying its styles; the after-line is at most one non-empty half carrying its styles plus the segments after it. Empty halves are dropped. |
| `Lines.KeepNonEmpty` | src/context/EditorProvider.jsx:240-248 | A half whose content is empty is dropped. A non-empty half is kept as the only element. Either way, the joined text is the half's content. |
| `Lines.CreatedLine` | src/context/EditorProvider.jsx:214-218 | createLine's line has exactly one segment, holding the content with styles `{}`, and its length equals its content sum. |
| `Lines.InsertAtColumn` | src/context/EditorProvider.jsx:115-131 | At a column c within a non-empty line, the flat text becomes flat[..c] + char + flat[c..]. |
| `Lines.BackspaceAtColumn` | src/context/EditorProvider.jsx:153-167 | At a column 0 < c <= total, the flat text becomes flat[..c-1] + flat[c..]. The segment count is the same, the content sum drops by one, and every other segment is unchanged. |
| `Lines.SplitAtColumn` | src/context/EditorProvider.jsx:230-259 | Splitting at a column c within the line gives a before-line with flat text flat[..c] and length c, and an after-line with flat text flat[c..]. |
| `Document.InitialState` | src/context/EditorProvider.jsx:103-108 | The initial `lines` literal is one line whose flat text is "ine no. 1". Its cache is correct. Line 0 is active and the cursor is at the line's end. |
| `Document.InitialLines` | src/context/EditorProvider.jsx:48-57 | The `lines` literal is one line of three segments: "ine " and "1" without styles, "no. " in purple. Its joined text is "ine no. 1" and its cached length 9 agrees with the segments. |
| `Document.UpdateActiveLine` | src/context/EditorProvider.jsx:170-195 | Backspace at column 0 is a silent no-op. The call fails exactly when the line has no segments. Otherwise only the active line is replaced, the active line index stays, and the cursor becomes c+1 for "char", max(0, c-1) for "backspace" and c for "delete". |
| `Document.CursorAfter` | src/context/EditorProvider.jsx:188-194 | "char" moves the cursor one right. "backspace" moves it one left, but never below 0. "delete" matches no branch and leaves it. A non-negative cursor stays non-negative. |
| `Document.TypeAtCursor` | src/context/EditorProvider.jsx:170-189 | Typing within a non-empty line inserts the text at the cursor. The segment count and every segment's styles are kept. The cached length grows by one and the cursor by one. |
| `Document.BackspaceAtCursor` | src/context/EditorProvider.jsx:170-191 | A backspace at 0 < c <= total removes the character before the cursor and keeps the segment count. The cached length drops by one and the cursor moves to c-1. |
| `Document.DeleteAtCursor` | src/context/EditorProvider.jsx:170-190 | "delete" at 0 < c <= total removes the same character as Backspace, the one before the cursor. The segment count is kept, the cached length drops by one, and the cursor stays at c. |
| `Document.EditKeepsCoherent` | src/context/EditorProvider.jsx:170-195 | Start from correct caches with the cursor within the active line. Typing one character and backspacing both keep this so. |
| `Document.DeleteAtColumnZero` | src/context/EditorProvider.jsx:170-179 | "delete" at column 0 turns the first segment's content c into c[..\|c\|-1] + c. The cached length drops by one and the cursor stays at 0. |
| `Document.EnterPress` | src/context/EditorProvider.jsx:210-269 | The document grows by exactly one line, the active line index grows by one, and the document's whole text is unchanged. Correct caches stay correct. At the cached end, or on a segment-less line, the one new line is `{[{"", {}}], 0}` appended at the end and the cursor does not move. Otherwise the lines before stay, the lines after shift by one, the two new lines' texts concatenate to the old line's, and the cursor becomes 0. |
| `Document.CreateLine` | src/context/EditorProvider.jsx:214-220 | createLine adds exactly one line, `{[{"", {}}], 0}`, at the end of the document. The lines before it are unchanged, the next line becomes active and the cursor does not move. The whole text, and correct caches, are preserved. |
| `Document.NewLineWithTextFromCurrentLine` | src/context/EditorProvider.jsx:230-268 | The split branch of Enter as a transition. It has no contract of its own; `NewLineKeepsText` states its properties. |
| `Document.NewLineKeepsText` | src/context/EditorProvider.jsx:230-268 | The split adds exactly one line and makes the after-line active at column 0. The lines before and after the active line stay in place, and the two new lines' texts concatenate to the old line's. The document's whole text, and correct caches, are preserved. |
| `Document.EnterSplitsAtCursor` | src/context/EditorProvider.jsx:230-267 | In a coherent state, splitting at the cursor gives a before-line holding flat[..c] with length c and an after-line holding flat[c..]. The result is coherent. |
| `Document.EnterAtEndLeavesCursorPastLine` | src/context/EditorProvider.jsx:214-224 | Enter at the end of a non-empty last line leaves the cursor past the end of the new empty active line. |
| `Document.EnterThenBackspaceFromInitial` | src/context/EditorProvider.jsx:210-224 | From the initial state, Enter then Backspace leave the new line as one empty segment with length -1 and the cursor at 8. |
| `Cursor.CurrentCharAtCursor` | src/playground/Cursor.jsx:23-31 | The result is defined exactly when c-1 (left) or c (right) indexes the flat text, and it is that character. That character is also the one found through the segment resolution. |
| `Cursor.MoveLeft` | src/playground/Cursor.jsx:54-67 | At column 0 with activeLine > 0, it moves to the previous line at that line's cached length; at (0, 0) nothing changes; otherwise the column drops by one. The line data is untouched. A cursor within its line stays within its line when no length is negative, and a coherent state stays coherent. |
| `Cursor.MoveRight` | src/playground/Cursor.jsx:69-81 | At the cached end of a non-last line, it moves to column 0 of the next line; at the end of the last line nothing changes; otherwise the column grows by one. The line data is untouched, and the same bounds and coherence facts hold as for MoveLeft. |
| `Cursor.MoveRightUndoesMoveLeft` | src/playground/Cursor.jsx:54-81 | In a coherent state not at (0, 0), moving left then right returns to the same state. |
| `Cursor.MoveLeftUndoesMoveRight` | src/playground/Cursor.jsx:54-81 | In a coherent state not at the end of the last line, moving right then left returns to the same state. |
| `Cursor.ArrowUp` | src/playground/Cursor.jsx:124-127 | Only the active line changes, to max(0, activeLine-1). The column is untouched. |
| `Cursor.ArrowDown` | src/playground/Cursor.jsx:128-131 | Only the active line changes, to min(last, activeLine+1). The column is untouched. |
| `Cursor.Classify` | src/playground/Cursor.jsx:112-132 | Each command holds exactly when its key condition does. Insert holds exactly for a single-character key without Ctrl or Meta; Backspace, Delete, Enter and the four arrows each hold exactly for their own key name. |
| `Cursor.KeyDown` | src/playground/Cursor.jsx:112-134 | The active line stays in range. Only the edit keys can fail. The arrow keys perform `MoveLeft`, `MoveRight`, `ArrowUp` and `ArrowDown`, Enter performs `EnterPress`, and unknown keys change nothing. What the edit keys do is `KeyDownEdits`. |
| `Cursor.KeyDownEdits` | src/playground/Cursor.jsx:118-121 | Within the active line's text: a printable key is inserted at the cursor and the cursor moves past it. Backspace at 0 < c removes the character before the cursor and moves to c-1; at c = 0 it changes nothing. Delete removes that same character and leaves the cursor at c. |
| `Cursor.InsertKeyEdits` | src/playground/Cursor.jsx:118-119 | A printable key on a line with segments and a cursor within its text goes in at the cursor, and the cursor moves one right. |
| `Cursor.BackspaceKeyEdits` | src/playground/Cursor.jsx:120-121 | Backspace at 0 < c <= total removes the character before the cursor, and the cursor moves to c-1. |
| `Cursor.DeleteKeyEdits` | src/playground/Cursor.jsx:120-121 | Delete at 0 < c <= total removes the character before the cursor, and the cursor stays. |
| `Cursor.KeyKeepsCoherent` | src/playground/Cursor.jsx:112-121 | The left and right arrows, a printable key, and Backspace keep a coherent state coherent. |
| `Editor.EditorProvider.constructor` | src/context/EditorProvider.jsx:103-108 | The fields hold the initial state. A loop accumulates the cursor as the first line's content sum. |
| `Editor.EditorProvider.UpdateActiveLine` | src/context/EditorProvider.jsx:170-195 | The copy-and-assign of line data yields exactly `Document.UpdateActiveLine`'s state. A thrown error leaves every field as it was. |
| `Editor.EditorProvider.HandleEnterPress` | src/context/EditorProvider.jsx:210-227 | The branch at line 223 calls `CreateLine` or `NewLineWithTextFromCurrentLine`. The result is exactly `Document.EnterPress`'s state. |
| `Editor.EditorProvider.CreateLine` | src/context/EditorProvider.jsx:214-220 | Appending to the line data and incrementing the active line yields exactly `Document.CreateLine`'s state. |
| `Editor.EditorProvider.NewLineWithTextFromCurrentLine` | src/context/EditorProvider.jsx:230-268 | The resolution, the split, the copy, the index assignment and the splice of line data yield exactly `Document.NewLineWithTextFromCurrentLine`'s state. |
| `Editor.EditorProvider.MoveLeft` | src/playground/Cursor.jsx:54-67 | The setter calls yield exactly `Cursor.MoveLeft`'s state. |
| `Editor.EditorProvider.MoveRight` | src/playground/Cursor.jsx:69-81 | The setter calls yield exactly `Cursor.MoveRight`'s state. |
| `Editor.EditorProvider.HandleKeyDown` | src/playground/Cursor.jsx:112-134 | Dispatching one key yields exactly `Cursor.KeyDown`'s state, and reports a thrown error. |

## Left out

- Pixel placement of the cursor (`updateCursorPosition`, src/playground/Cursor.jsx:34-51, and the effect at lines 142-150) and `src/utils/measurement.js`. They are floating-point glyph widths measured on a canvas and written into DOM styles.
- React plumbing: context, `useState`/`useCallback`, `requestAnimationFrame`, and the batching of state updates. Each handler is one atomic transition that uses the provider's own cursor update.
- The extra `handleCursorPositionChange` calls in `insertText` and `deleteText` (src/playground/Cursor.jsx:86, 105). Their combined effect depends on React batching. Without them, "delete" leaves the column unchanged and Backspace at column 0 leaves it at 0, where line 105 would set it to one less.
- The `"Delete"` cursor branch of `updateActiveLine` (src/context/EditorProvider.jsx:192-193). It is dead, because the action passed is the lower-case `"delete"`, and `Document.Action` has no value for it.
- `textSize`/`setTextSize` and `totalLines`. They are presentation only, and `totalLines` is set once and never updated. The exported setters appear only through the handlers that call them.
- Colour change and the pending segment (`handleTextColorChange`, `tempSegment` used by src/components/ColorPicker.jsx). EditorProvider.jsx does not define them, so there is no code to model.
- The distinction between a missing `styles` field and `{}`. Both are `Segments.NoStyles`, because the renderer reads `styles?.color` and Enter copies styles with a spread.
- JavaScript strings are UTF-16 code units; here a string is a sequence of `char`, and a one-character key is one `char`.
- `useEditorContext`'s error outside a provider, logging, and the UI-only components (`Line.jsx`, `Playground.jsx`, `Nav.jsx`, `TextSizePicker.jsx`, `App.jsx`, `main.jsx`).
