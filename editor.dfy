/** The provider as an object: its three pieces of state are fields, and each handler updates
    them in place (src/context/EditorProvider.jsx:102-269, src/playground/Cursor.jsx:54-134).
    Every method is proved to realise the corresponding transition of Document or Cursor. */
module Editor {
  import opened Lines
  import Document
  import Cursor

  class EditorProvider {
    var lineData: seq<Line>
    var activeLine: int
    /** cursorPositionInActiveLine */
    var cursor: int

    function State(): Document.EditorState
      reads this
    {
      Document.EditorState(lineData, activeLine, cursor)
    }

    ghost predicate Valid()
      reads this
    {
      Document.Valid(State())
    }

    /** useState(lines), useState(0), and the reduce over the first line for the cursor. */
    constructor ()
      ensures Valid() && State() == Document.InitialState()
    {
      lineData := Document.InitialLines();
      activeLine := 0;
      var total := 0;
      var text := Document.InitialLines()[0].text;
      for k := 0 to |text|
        invariant total == SumLengths(text[..k])
      {
        PrefixStep(text, k);
        total := total + |text[k].content|;
      }
      assert text[..|text|] == text;
      cursor := total;
    }

    /** updateActiveLine(char, action); `thrown` is the TypeError findActiveSegment raises on a
        line without segments, after which nothing has changed. */
    method UpdateActiveLine(ch: string, action: Document.Action) returns (thrown: bool)
      requires Valid()
      modifies this
      ensures Valid()
      ensures var r := Document.UpdateActiveLine(old(State()), ch, action);
        thrown == r.None? && State() == r.GetOr(old(State()))
    {
      var currentLine := lineData[activeLine];
      if action == Document.BackspaceAction && cursor == 0 {
        return false;
      }
      var segmentInfo := FindActiveSegment(currentLine, cursor);
      if segmentInfo.None? {
        return true;
      }
      var updatedLine;
      if action == Document.CharAction {
        updatedLine := HandleInsertText(currentLine, ch, segmentInfo.value);
      } else {
        updatedLine := HandleBackspace(currentLine, segmentInfo.value);
      }
      var newData := lineData;
      newData := newData[activeLine := updatedLine];
      lineData := newData;
      if action == Document.CharAction {
        cursor := cursor + 1;
      } else if action == Document.BackspaceAction {
        cursor := if cursor - 1 < 0 then 0 else cursor - 1;
      }
      thrown := false;
    }

    /** handleEnterPress: createLine() at the cached end of the line or on a line without
        segments, newLineWithTextFromCurrentLine() otherwise. */
    method HandleEnterPress()
      requires Valid()
      modifies this
      ensures Valid() && State() == Document.EnterPress(old(State()))
    {
      var currentLine := lineData[activeLine];
      if cursor == currentLine.length || |currentLine.text| == 0 {
        CreateLine();
      } else {
        NewLineWithTextFromCurrentLine();
      }
    }

    /** createLine(): an empty line appended to the line data, and the next line made active. */
    method CreateLine()
      requires Valid()
      modifies this
      ensures Valid() && State() == Document.CreateLine(old(State()))
    {
      ghost var expected := Document.CreateLine(State());
      assert expected.lineData == lineData + [Document.EmptyLine()];
      lineData := lineData + [Document.EmptyLine()];
      activeLine := activeLine + 1;
      assert State() == expected;
    }

    /** newLineWithTextFromCurrentLine(): the copy of the line data, the index assignment of the
        before-line, the splice of the after-line behind it, and the cursor at its start. */
    method NewLineWithTextFromCurrentLine()
      requires Valid()
      requires |lineData[activeLine].text| > 0
      modifies this
      ensures Valid() && State() == Document.NewLineWithTextFromCurrentLine(old(State()))
    {
      ghost var expected := Document.NewLineWithTextFromCurrentLine(State());
      var currentLine := lineData[activeLine];
      var segmentInfo := FindActiveSegment(currentLine, cursor);
      var halves := SplitLine(currentLine, segmentInfo.value);
      var newLineData := lineData;
      newLineData := newLineData[activeLine := halves.0];
      newLineData := newLineData[..activeLine + 1] + [halves.1] + newLineData[activeLine + 1..];
      assert newLineData == expected.lineData;
      lineData := newLineData;
      activeLine := activeLine + 1;
      cursor := 0;
      assert State() == expected;
    }

    method MoveLeft()
      requires Valid()
      modifies this
      ensures Valid() && State() == Cursor.MoveLeft(old(State()))
    {
      if cursor == 0 {
        if activeLine > 0 {
          var prevLineLength := lineData[activeLine - 1].length;
          activeLine := activeLine - 1;
          cursor := prevLineLength;
        }
        return;
      }
      cursor := cursor - 1;
    }

    method MoveRight()
      requires Valid()
      modifies this
      ensures Valid() && State() == Cursor.MoveRight(old(State()))
    {
      if cursor == lineData[activeLine].length {
        if activeLine < |lineData| - 1 {
          activeLine := activeLine + 1;
          cursor := 0;
        }
        return;
      }
      cursor := cursor + 1;
    }

    /** handleKeyDown, one key per call. */
    method HandleKeyDown(key: string, ctrlKey: bool, metaKey: bool) returns (thrown: bool)
      requires Valid()
      modifies this
      ensures Valid()
      ensures var r := Cursor.KeyDown(old(State()), key, ctrlKey, metaKey);
        thrown == r.None? && State() == r.GetOr(old(State()))
    {
      thrown := false;
      match Cursor.Classify(key, ctrlKey, metaKey)
      case MoveLeftKey => MoveLeft();
      case MoveRightKey => MoveRight();
      case InsertKey => thrown := UpdateActiveLine(key, Document.CharAction);
      case BackspaceKey => thrown := UpdateActiveLine("", Document.BackspaceAction);
      case DeleteKey => thrown := UpdateActiveLine("", Document.DeleteAction);
      case EnterKey => HandleEnterPress();
      case ArrowUpKey =>
        if activeLine > 0 {
          activeLine := activeLine - 1;
        }
      case ArrowDownKey =>
        if activeLine < |lineData| - 1 {
          activeLine := activeLine + 1;
        }
      case IgnoredKey =>
    }
  }
}
