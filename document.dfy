/** The provider's editor state and its edit transitions (src/context/EditorProvider.jsx:47-57,
    102-269): each transition is one atomic update of the line data, active line and cursor. */
module Document {
  import opened Wrappers
  import opened Segments
  import opened Lines

  /** lineData, activeLine and cursorPositionInActiveLine. */
  datatype EditorState = EditorState(lineData: seq<Line>, activeLine: int, cursor: int)

  /** The active line exists, so `lineData[activeLine]` never reads `undefined`. */
  predicate Valid(s: EditorState)
  {
    0 <= s.activeLine < |s.lineData|
  }

  predicate AllCached(lines: seq<Line>)
  {
    forall j :: 0 <= j < |lines| ==> CacheConsistent(lines[j])
  }

  /** The cursor lies within the active line. */
  predicate CursorInLine(s: EditorState)
  {
    Valid(s) && 0 <= s.cursor <= s.lineData[s.activeLine].length
  }

  predicate NonNegativeLengths(lines: seq<Line>)
  {
    forall j :: 0 <= j < |lines| ==> lines[j].length >= 0
  }

  /** The state the editing operations are designed for: every cached length is right and
      the cursor lies within the active line. */
  predicate Coherent(s: EditorState)
  {
    Valid(s) && AllCached(s.lineData) && 0 <= s.cursor <= s.lineData[s.activeLine].length
  }

  /** The `lines` literal: "ine " with no styles, "no. " in purple, "1" with no styles. */
  function InitialLines(): (r: seq<Line>)
    ensures |r| == 1 && |r[0].text| == 3 && CacheConsistent(r[0])
    ensures Flat(r[0].text) == "ine no. 1"
    ensures r[0].text[1].styles.color == Some("purple")
    ensures r[0].text[0].styles == NoStyles && r[0].text[2].styles == NoStyles
  {
    var rest := [Segment("no. ", Styles(None, Some("purple"))), Segment("1", NoStyles)];
    var text := [Segment("ine ", NoStyles)] + rest;
    assert text[1..] == rest;
    assert rest[1..] == [Segment("1", NoStyles)];
    FlatSingle(Segment("1", NoStyles));
    assert Flat(rest) == "no. " + "1";
    assert Flat(text) == "ine " + ("no. " + "1");
    [Line(text, 9)]
  }

  /** Line 0 active, the cursor at the sum of the first line's segment lengths. */
  function InitialState(): (s: EditorState)
    ensures Coherent(s) && |s.lineData| == 1
    ensures Flat(s.lineData[0].text) == "ine no. 1"
    ensures s.cursor == s.lineData[0].length
  {
    EditorState(InitialLines(), 0, SumLengths(InitialLines()[0].text))
  }

  /** The `action` argument of updateActiveLine as Cursor.jsx passes it. */
  datatype Action = CharAction | BackspaceAction | DeleteAction

  /** `prev + 1` for "char", `Math.max(0, prev - 1)` for "backspace"; "delete" matches neither
      branch, and the "Delete" branch never matches the lower-case action. */
  function CursorAfter(action: Action, cursor: int): (r: int)
    ensures cursor >= 0 ==> r >= 0
    ensures action == CharAction ==> r == cursor + 1
    ensures action == BackspaceAction ==> r >= 0 && (cursor > 0 ==> r == cursor - 1)
    ensures action == DeleteAction ==> r == cursor
  {
    match action
    case CharAction => cursor + 1
    case BackspaceAction => if cursor - 1 < 0 then 0 else cursor - 1
    case DeleteAction => cursor
  }

  /** updateActiveLine: backspace at column 0 returns early; otherwise the column is resolved
      (a TypeError, `None`, on a line without segments), the active line alone is replaced by
      the inserted or backspaced line, and the cursor moves. "delete" takes the backspace path. */
  function UpdateActiveLine(s: EditorState, ch: string, action: Action): (r: Option<EditorState>)
    requires Valid(s)
    ensures action == BackspaceAction && s.cursor == 0 ==> r == Some(s)
    ensures r.None? <==> !(action == BackspaceAction && s.cursor == 0) && |s.lineData[s.activeLine].text| == 0
    ensures r.Some? ==>
      && Valid(r.value) && |r.value.lineData| == |s.lineData| && r.value.activeLine == s.activeLine
      && (forall j :: 0 <= j < |s.lineData| && j != s.activeLine ==> r.value.lineData[j] == s.lineData[j])
    ensures r.Some? && !(action == BackspaceAction && s.cursor == 0) ==>
      r.value.cursor == CursorAfter(action, s.cursor)
  {
    var currentLine := s.lineData[s.activeLine];
    if action == BackspaceAction && s.cursor == 0 then Some(s)
    else
      match Resolve(currentLine.text, s.cursor)
      case None => None
      case Some(segmentInfo) =>
        var updatedLine :=
          if action == CharAction then HandleInsertText(currentLine, ch, segmentInfo)
          else HandleBackspace(currentLine, segmentInfo);
        Some(EditorState(s.lineData[s.activeLine := updatedLine], s.activeLine, CursorAfter(action, s.cursor)))
  }

  /** Typing within the active line: its flat text gains `ch` at the cursor, its segment count
      and the segments' styles are kept, its cached length grows by one and the cursor moves
      past the new text. */
  lemma TypeAtCursor(s: EditorState, ch: string)
    requires Valid(s)
    requires |s.lineData[s.activeLine].text| > 0
    requires 0 <= s.cursor <= SumLengths(s.lineData[s.activeLine].text)
    ensures var r := UpdateActiveLine(s, ch, CharAction);
      var before, after := s.lineData[s.activeLine], r.value.lineData[s.activeLine];
      && r.Some?
      && Flat(after.text) == Flat(before.text)[..s.cursor] + ch + Flat(before.text)[s.cursor..]
      && |after.text| == |before.text| && after.length == before.length + 1
      && (forall j :: 0 <= j < |after.text| ==> after.text[j].styles == before.text[j].styles)
      && r.value.cursor == s.cursor + 1
  {
    InsertAtColumn(s.lineData[s.activeLine], ch, s.cursor);
  }

  /** Backspace within the active line: the character before the cursor disappears from its
      flat text, the other segments stay, its cached length drops by one and the cursor moves
      back by one. */
  lemma BackspaceAtCursor(s: EditorState)
    requires Valid(s)
    requires 0 < s.cursor <= SumLengths(s.lineData[s.activeLine].text)
    ensures var r := UpdateActiveLine(s, [], BackspaceAction);
      var before, after := s.lineData[s.activeLine], r.value.lineData[s.activeLine];
      && r.Some?
      && Flat(after.text) == Flat(before.text)[..s.cursor - 1] + Flat(before.text)[s.cursor..]
      && |after.text| == |before.text| && after.length == before.length - 1
      && r.value.cursor == s.cursor - 1
  {
    var line := s.lineData[s.activeLine];
    assert |line.text| > 0;
    BackspaceAtColumn(line, s.cursor);
  }

  /** "delete" within the active line removes the same character as Backspace, the character
      before the cursor, but leaves the cursor where it was. */
  lemma DeleteAtCursor(s: EditorState)
    requires Valid(s)
    requires 0 < s.cursor <= SumLengths(s.lineData[s.activeLine].text)
    ensures var r := UpdateActiveLine(s, [], DeleteAction);
      var before, after := s.lineData[s.activeLine], r.value.lineData[s.activeLine];
      && r.Some?
      && Flat(after.text) == Flat(before.text)[..s.cursor - 1] + Flat(before.text)[s.cursor..]
      && |after.text| == |before.text| && after.length == before.length - 1
      && r.value.cursor == s.cursor
  {
    var line := s.lineData[s.activeLine];
    assert |line.text| > 0;
    BackspaceAtColumn(line, s.cursor);
  }

  /** Typing one character and backspacing within the line keep a coherent state coherent. */
  lemma EditKeepsCoherent(s: EditorState, ch: string, action: Action)
    requires Coherent(s)
    requires action != DeleteAction
    requires action == CharAction ==> |ch| == 1
    ensures var r := UpdateActiveLine(s, ch, action); r.Some? ==> Coherent(r.value)
  {
    var r := UpdateActiveLine(s, ch, action);
    var line := s.lineData[s.activeLine];
    if r.Some? && !(action == BackspaceAction && s.cursor == 0) {
      var after := r.value.lineData[s.activeLine];
      if action == CharAction {
        assert SumLengths(after.text) == SumLengths(line.text) + 1;
      } else {
        BackspaceAtColumn(line, s.cursor);
      }
      assert CacheConsistent(after);
      assert forall j :: 0 <= j < |r.value.lineData| && j != s.activeLine ==> r.value.lineData[j] == s.lineData[j];
    }
  }

  /** "delete" at column 0 goes down the backspace path with offset 0 in the first segment, so
      `slice(0, -1)` keeps all but the last character and the whole content follows it; the
      cached length still drops by one and the cursor stays. */
  lemma DeleteAtColumnZero(s: EditorState)
    requires Valid(s) && s.cursor == 0
    requires |s.lineData[s.activeLine].text| > 0 && s.lineData[s.activeLine].text[0].content != []
    ensures var r := UpdateActiveLine(s, [], DeleteAction);
      var c := s.lineData[s.activeLine].text[0].content;
      && r.Some? && r.value.cursor == 0
      && r.value.lineData[s.activeLine].text[0].content == c[..|c| - 1] + c
      && r.value.lineData[s.activeLine].length == s.lineData[s.activeLine].length - 1
  {
  }

  // ---------------------------------------------------------------------------
  // Enter

  /** The line createLine appends. */
  function EmptyLine(): Line
  {
    CreatedLine("")
  }

  /** Every character of the document, line after line. */
  function AllText(lines: seq<Line>): string
  {
    if lines == [] then [] else Flat(lines[0].text) + AllText(lines[1..])
  }

  lemma {:induction false} AllTextConcat(a: seq<Line>, b: seq<Line>)
    ensures AllText(a + b) == AllText(a) + AllText(b)
  {
    if a == [] {
      assert a + b == b;
    } else {
      assert (a + b)[1..] == a[1..] + b;
      AllTextConcat(a[1..], b);
    }
  }

  /** handleEnterPress: with the cursor at the cached length, or on a line without segments,
      createLine appends one empty line at the END of the document and activates line
      activeLine + 1, leaving the cursor alone; otherwise the active line is split at the cursor,
      the before-line replaces it, the after-line is spliced in after it, and the cursor goes to
      column 0 of the after-line. */
  function EnterPress(s: EditorState): (r: EditorState)
    requires Valid(s)
    ensures Valid(r) && |r.lineData| == |s.lineData| + 1 && r.activeLine == s.activeLine + 1
    ensures AllText(r.lineData) == AllText(s.lineData)
    ensures AllCached(s.lineData) ==> AllCached(r.lineData)
    ensures var line := s.lineData[s.activeLine];
      s.cursor == line.length || |line.text| == 0 ==>
        r.lineData[..|s.lineData|] == s.lineData && r.lineData[|s.lineData|] == EmptyLine() && r.cursor == s.cursor
    ensures var line := s.lineData[s.activeLine]; var al := s.activeLine;
      !(s.cursor == line.length || |line.text| == 0) ==>
        && r.cursor == 0
        && r.lineData[..al] == s.lineData[..al]
        && r.lineData[al + 2..] == s.lineData[al + 1..]
        && Flat(r.lineData[al].text) + Flat(r.lineData[al + 1].text) == Flat(line.text)
  {
    var currentLine := s.lineData[s.activeLine];
    if s.cursor == currentLine.length || |currentLine.text| == 0 then CreateLine(s)
    else
      NewLineKeepsText(s);
      NewLineWithTextFromCurrentLine(s)
  }

  /** createLine(): an empty line appended at the end of the line data, the next line made
      active, the cursor left alone. */
  function CreateLine(s: EditorState): (r: EditorState)
    requires Valid(s)
    ensures Valid(r) && |r.lineData| == |s.lineData| + 1 && r.activeLine == s.activeLine + 1
    ensures AllText(r.lineData) == AllText(s.lineData)
    ensures AllCached(s.lineData) ==> AllCached(r.lineData)
    ensures r.lineData[..|s.lineData|] == s.lineData && r.lineData[|s.lineData|] == EmptyLine()
    ensures r.cursor == s.cursor
  {
    AppendedText(s.lineData, EmptyLine());
    EditorState(s.lineData + [EmptyLine()], s.activeLine + 1, s.cursor)
  }

  /** newLineWithTextFromCurrentLine(): the active line split at the cursor, the before-line
      in its place, the after-line spliced in behind it and made active at column 0. */
  function NewLineWithTextFromCurrentLine(s: EditorState): EditorState
    requires Valid(s) && |s.lineData[s.activeLine].text| > 0
  {
    var al, currentLine := s.activeLine, s.lineData[s.activeLine];
    var halves := SplitLine(currentLine, Locate(currentLine.text, s.cursor));
    var newLineData := s.lineData[al := halves.0];
    EditorState(newLineData[..al + 1] + [halves.1] + newLineData[al + 1..], al + 1, 0)
  }

  /** The split adds one line, keeps the document's text and its correct caches, leaves the
      lines before and after the active one in place, and divides the active line's text
      between the two new lines. */
  lemma NewLineKeepsText(s: EditorState)
    requires Valid(s) && |s.lineData[s.activeLine].text| > 0
    ensures var r := NewLineWithTextFromCurrentLine(s);
      && Valid(r) && |r.lineData| == |s.lineData| + 1 && r.activeLine == s.activeLine + 1
      && AllText(r.lineData) == AllText(s.lineData)
      && (AllCached(s.lineData) ==> AllCached(r.lineData))
    ensures var r := NewLineWithTextFromCurrentLine(s);
      var line, al := s.lineData[s.activeLine], s.activeLine;
      && r.cursor == 0
      && r.lineData[..al] == s.lineData[..al]
      && r.lineData[al + 2..] == s.lineData[al + 1..]
      && Flat(r.lineData[al].text) + Flat(r.lineData[al + 1].text) == Flat(line.text)
  {
    var al, currentLine := s.activeLine, s.lineData[s.activeLine];
    var halves := SplitLine(currentLine, Locate(currentLine.text, s.cursor));
    var updated := s.lineData[al := halves.0];
    var spliced := updated[..al + 1] + [halves.1] + updated[al + 1..];
    assert NewLineWithTextFromCurrentLine(s) == EditorState(spliced, al + 1, 0);
    SplicedText(s.lineData, al, halves.0, halves.1);
  }

  lemma AppendedText(lines: seq<Line>, line: Line)
    requires Flat(line.text) == [] && CacheConsistent(line)
    ensures AllText(lines + [line]) == AllText(lines)
    ensures AllCached(lines) ==> AllCached(lines + [line])
    ensures (lines + [line])[..|lines|] == lines
  {
    AllTextConcat(lines, [line]);
    assert [line][1..] == [];
  }

  lemma SplicedText(lines: seq<Line>, al: int, before: Line, after: Line)
    requires 0 <= al < |lines|
    requires Flat(before.text) + Flat(after.text) == Flat(lines[al].text)
    ensures var updated := lines[al := before];
      var spliced := updated[..al + 1] + [after] + updated[al + 1..];
      && |spliced| == |lines| + 1
      && AllText(spliced) == AllText(lines)
      && spliced[..al] == lines[..al] && spliced[al] == before && spliced[al + 1] == after
      && spliced[al + 2..] == lines[al + 1..]
      && (AllCached(lines) && CacheConsistent(before) && CacheConsistent(after) ==> AllCached(spliced))
  {
    SplicedShape(lines, al, before, after);
    SplicedAllText(lines, al, before, after);
    if AllCached(lines) && CacheConsistent(before) && CacheConsistent(after) {
      SplicedCached(lines, al, before, after);
    }
  }

  /** The provider's copy, index assignment and splice put `before` and `after` in place of line `al`. */
  lemma SplicedShape(lines: seq<Line>, al: int, before: Line, after: Line)
    requires 0 <= al < |lines|
    ensures var updated := lines[al := before];
      updated[..al + 1] + [after] + updated[al + 1..] == lines[..al] + ([before, after] + lines[al + 1..])
  {
    var updated := lines[al := before];
    assert updated[..al + 1] == lines[..al] + [before];
    assert updated[al + 1..] == lines[al + 1..];
  }

  lemma SplicedAllText(lines: seq<Line>, al: int, before: Line, after: Line)
    requires 0 <= al < |lines|
    requires Flat(before.text) + Flat(after.text) == Flat(lines[al].text)
    ensures AllText(lines[..al] + ([before, after] + lines[al + 1..])) == AllText(lines)
  {
    var pre, post := lines[..al], lines[al + 1..];
    var x, y := [before, after] + post, [lines[al]] + post;
    LinesAround(lines, al);
    AllTextConcat(pre, x);
    AllTextConcat(pre, y);
    AllTextPair(before, after, post);
    AllTextSingle(lines[al], post);
    var textPre, textPost := AllText(pre), AllText(post);
    assert AllText(pre + x) == textPre + (Flat(lines[al].text) + textPost);
  }

  lemma LinesAround(lines: seq<Line>, al: int)
    requires 0 <= al < |lines|
    ensures lines == lines[..al] + ([lines[al]] + lines[al + 1..])
  {
  }

  lemma AllTextPair(a: Line, b: Line, rest: seq<Line>)
    ensures AllText([a, b] + rest) == Flat(a.text) + Flat(b.text) + AllText(rest)
  {
    assert ([a, b] + rest)[1..] == [b] + rest;
    AllTextSingle(b, rest);
  }

  lemma AllTextSingle(a: Line, rest: seq<Line>)
    ensures AllText([a] + rest) == Flat(a.text) + AllText(rest)
  {
    assert ([a] + rest)[1..] == rest;
  }

  lemma SplicedCached(lines: seq<Line>, al: int, before: Line, after: Line)
    requires 0 <= al < |lines|
    requires AllCached(lines) && CacheConsistent(before) && CacheConsistent(after)
    ensures AllCached(lines[..al] + ([before, after] + lines[al + 1..]))
  {
    var spliced := lines[..al] + ([before, after] + lines[al + 1..]);
    forall j | 0 <= j < |spliced|
      ensures CacheConsistent(spliced[j])
    {
      if j > al + 1 {
        assert spliced[j] == lines[j - 1];
      } else if j < al {
        assert spliced[j] == lines[j];
      }
    }
  }

  /** The split at a cursor within a coherent active line: the before-line holds the text up to
      the cursor and has the cursor as its length, the after-line holds the rest, and the
      after-line becomes active at column 0, so the state stays coherent. */
  lemma EnterSplitsAtCursor(s: EditorState)
    requires Coherent(s)
    requires s.cursor != s.lineData[s.activeLine].length && |s.lineData[s.activeLine].text| > 0
    ensures var r := EnterPress(s); var line := s.lineData[s.activeLine];
      && Flat(r.lineData[s.activeLine].text) == Flat(line.text)[..s.cursor]
      && Flat(r.lineData[s.activeLine + 1].text) == Flat(line.text)[s.cursor..]
      && r.lineData[s.activeLine].length == s.cursor
      && Coherent(r)
  {
    var line := s.lineData[s.activeLine];
    SplitAtColumn(line, s.cursor);
    var halves := SplitLine(line, Locate(line.text, s.cursor));
    SplicedText(s.lineData, s.activeLine, halves.0, halves.1);
  }

  /** Enter at the end of a non-empty last line keeps the cursor at the old line's length while
      the new active line is empty, so the cursor ends up past the end of its line. */
  lemma EnterAtEndLeavesCursorPastLine(s: EditorState)
    requires Coherent(s)
    requires s.activeLine == |s.lineData| - 1 && s.cursor == s.lineData[s.activeLine].length > 0
    ensures var r := EnterPress(s); !Coherent(r) && r.cursor > r.lineData[r.activeLine].length
  {
  }

  /** On the initial document, Enter at the end of the line followed by Backspace: the cursor
      is still at column 9 of the new empty line, so the backspace resolves to that line's single
      empty segment at offset 0 and `"".slice(0, -1)` deletes nothing, yet the cached length
      becomes -1 and the cursor 8. */
  lemma EnterThenBackspaceFromInitial()
    ensures var s1 := EnterPress(InitialState());
      var s2 := UpdateActiveLine(s1, [], BackspaceAction);
      && s1.activeLine == 1 && s1.cursor == 9 && s1.lineData[1] == EmptyLine()
      && s2.Some? && |s2.value.lineData| == 2 && s2.value.activeLine == 1
      && s2.value.lineData[1] == Line([Segment([], NoStyles)], -1)
      && s2.value.cursor == 8
  {
    var s0 := InitialState();
    var s1 := EnterPress(s0);
    assert s1.lineData[1] == EmptyLine();
    var line := EmptyLine();
    assert Locate(line.text, 9) == SegmentInfo(0, 0);
  }
}
