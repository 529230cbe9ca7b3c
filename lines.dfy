/** Lines: segments, the cached length, and resolving a flat column to a segment
    (src/context/EditorProvider.jsx:15-20, 60-78, 115-168, 214-259). */
module Lines {
  import opened Wrappers
  import opened JsText
  import opened Segments

  /** LineData: the segments of the line and the `length` the code maintains beside them. */
  datatype Line = Line(text: seq<Segment>, length: int)

  /** The line's visible text, `text.map(s => s.content).join('')`. */
  function Flat(text: seq<Segment>): string
  {
    if text == [] then [] else text[0].content + Flat(text[1..])
  }

  /** `text.reduce((total, seg) => total + seg.content.length, 0)`. */
  function SumLengths(text: seq<Segment>): (n: nat)
    ensures n == |Flat(text)|
  {
    if text == [] then 0 else |text[0].content| + SumLengths(text[1..])
  }

  /** The cached length agrees with the segments. */
  predicate CacheConsistent(line: Line)
  {
    line.length == SumLengths(line.text)
  }

  lemma {:induction false} FlatConcat(a: seq<Segment>, b: seq<Segment>)
    ensures Flat(a + b) == Flat(a) + Flat(b)
  {
    if a == [] {
      assert a + b == b;
    } else {
      assert (a + b)[1..] == a[1..] + b;
      FlatConcat(a[1..], b);
    }
  }

  lemma FlatSingle(s: Segment)
    ensures Flat([s]) == s.content
  {
    assert [s][1..] == [];
  }

  /** The flat text of a line is what lies before segment `i`, then segment `i`, then the rest. */
  lemma {:induction false} FlatAround(text: seq<Segment>, i: int)
    requires 0 <= i < |text|
    ensures Flat(text) == Flat(text[..i]) + text[i].content + Flat(text[i + 1..])
  {
    if i == 0 {
      assert text[..0] == [];
    } else {
      var tail := text[1..];
      FlatAround(tail, i - 1);
      assert tail[i - 1] == text[i] && tail[i..] == text[i + 1..];
      var pre := text[..i];
      assert pre[0] == text[0] && pre[1..] == tail[..i - 1];
    }
  }

  /** Replacing segment `i` changes exactly that part of the flat text. */
  lemma FlatReplace(text: seq<Segment>, i: int, s: Segment)
    requires 0 <= i < |text|
    ensures Flat(text[i := s]) == Flat(text[..i]) + s.content + Flat(text[i + 1..])
  {
    FlatAround(text[i := s], i);
    assert text[i := s][..i] == text[..i];
    assert text[i := s][i + 1..] == text[i + 1..];
  }

  lemma PrefixStep(text: seq<Segment>, k: int)
    requires 0 <= k < |text|
    ensures SumLengths(text[..k + 1]) == SumLengths(text[..k]) + |text[k].content|
  {
    assert text[..k + 1] == text[..k] + [text[k]];
    FlatConcat(text[..k], [text[k]]);
    FlatSingle(text[k]);
  }

  lemma PrefixShift(text: seq<Segment>, k: int)
    requires 1 <= k <= |text|
    ensures SumLengths(text[..k]) == |text[0].content| + SumLengths(text[1..][..k - 1])
  {
    assert text[..k][1..] == text[1..][..k - 1];
  }

  lemma PrefixAtMostTotal(text: seq<Segment>, k: int)
    requires 0 <= k <= |text|
    ensures SumLengths(text[..k]) <= SumLengths(text)
  {
    var a, b := text[..k], text[k..];
    assert text == a + b;
    FlatConcat(a, b);
  }

  /** The total length of the first `k` segments (a boundary column of the line). */
  function PrefixLength(text: seq<Segment>, k: int): nat
    requires 0 <= k <= |text|
  {
    SumLengths(text[..k])
  }

  lemma FlatThree(a: seq<Segment>, s: Segment, b: seq<Segment>)
    ensures Flat(a + [s] + b) == Flat(a) + s.content + Flat(b)
  {
    FlatConcat(a + [s], b);
    FlatConcat(a, [s]);
    FlatSingle(s);
  }

  // ---------------------------------------------------------------------------
  // Resolving a column (findActiveSegment)

  /** The pair findActiveSegment returns. */
  datatype SegmentInfo = SegmentInfo(activeSegmentIndex: int, positionInSegment: int)

  function Shift(info: SegmentInfo, k: int): SegmentInfo
  {
    SegmentInfo(info.activeSegmentIndex + k, info.positionInSegment)
  }

  /** The first segment whose end reaches `column` (a boundary column belongs to the segment
      on its left), or the last segment at its own end when no segment reaches it. */
  function Locate(text: seq<Segment>, column: int): (r: SegmentInfo)
    requires |text| > 0
    ensures 0 <= r.activeSegmentIndex < |text|
    decreases |text|
  {
    var n := |text[0].content|;
    if n >= column then SegmentInfo(0, column)
    else if |text| == 1 then SegmentInfo(0, n)
    else Shift(Locate(text[1..], column - n), 1)
  }

  /** What findActiveSegment yields: on a line without segments it reads
      `text[-1].content`, a TypeError, written `None` here. */
  function Resolve(text: seq<Segment>, column: int): (r: Option<SegmentInfo>)
    ensures r.None? <==> |text| == 0
    ensures r.Some? ==> 0 <= r.value.activeSegmentIndex < |text|
  {
    if |text| == 0 then None else Some(Locate(text, column))
  }

  /** findActiveSegment: the loop accumulating segment lengths with an early return. */
  method FindActiveSegment(currentLine: Line, cursorPosition: int) returns (r: Option<SegmentInfo>)
    ensures r == Resolve(currentLine.text, cursorPosition)
  {
    var text := currentLine.text;
    var cumulativeLength := 0;
    for i := 0 to |text|
      invariant |text| > 0 ==>
        Locate(text, cursorPosition) ==
        (if i < |text| then Shift(Locate(text[i..], cursorPosition - cumulativeLength), i)
         else SegmentInfo(|text| - 1, |text[|text| - 1].content|))
    {
      var segment := text[i];
      if cumulativeLength + |segment.content| >= cursorPosition {
        return Some(SegmentInfo(i, cursorPosition - cumulativeLength));
      }
      if i + 1 < |text| {
        assert text[i..][1..] == text[i + 1..];
      }
      cumulativeLength := cumulativeLength + |segment.content|;
    }
    if |text| == 0 {
      return None;
    }
    return Some(SegmentInfo(|text| - 1, |text[|text| - 1].content|));
  }

  /** Locate is the first fit: every earlier segment ends before `column`; when the chosen
      segment reaches `column` the offset is measured from its start, and otherwise it is the
      last segment, at its own end. */
  lemma {:induction false} LocateFirstFit(text: seq<Segment>, column: int)
    requires |text| > 0
    ensures var r := Locate(text, column); var i := r.activeSegmentIndex;
      && (forall j :: 0 < j <= i ==> PrefixLength(text, j) < column)
      && (PrefixLength(text, i + 1) >= column ==> r.positionInSegment == column - PrefixLength(text, i))
      && (PrefixLength(text, i + 1) < column ==>
            i == |text| - 1 && r.positionInSegment == |text[|text| - 1].content|)
    decreases |text|
  {
    var n := |text[0].content|;
    PrefixShift(text, 1);
    assert text[1..][..0] == [];
    assert text[..0] == [];
    if n < column && |text| > 1 {
      var tail := text[1..];
      LocateFirstFit(tail, column - n);
      var i := Locate(tail, column - n).activeSegmentIndex + 1;
      PrefixesShifted(text, column, i);
      PrefixShift(text, i);
      PrefixShift(text, i + 1);
      assert PrefixLength(text, i) == n + PrefixLength(tail, i - 1);
      assert PrefixLength(text, i + 1) == n + PrefixLength(tail, i);
    }
  }

  /** The prefix bound of the tail, moved up by the first segment. */
  lemma PrefixesShifted(text: seq<Segment>, column: int, i: int)
    requires 1 <= i <= |text| && |text[0].content| < column
    requires forall j :: 0 < j <= i - 1 ==> PrefixLength(text[1..], j) < column - |text[0].content|
    ensures forall j :: 0 < j <= i ==> PrefixLength(text, j) < column
  {
    forall j | 0 < j <= i
      ensures PrefixLength(text, j) < column
    {
      PrefixShift(text, j);
      assert text[1..][..0] == [];
      if j > 1 {
        assert PrefixLength(text[1..], j - 1) < column - |text[0].content|;
      }
    }
  }

  /** Resolution round-trip: for a column within the line, the lengths of the segments before
      the resolved one plus the offset give the column back, and the offset is within the segment. */
  lemma LocateRoundTrip(text: seq<Segment>, column: int)
    requires |text| > 0 && 0 <= column <= SumLengths(text)
    ensures var r := Locate(text, column);
      && SumLengths(text[..r.activeSegmentIndex]) + r.positionInSegment == column
      && 0 <= r.positionInSegment <= |text[r.activeSegmentIndex].content|
  {
    var r := Locate(text, column);
    var i := r.activeSegmentIndex;
    LocateFirstFit(text, column);
    PrefixStep(text, i);
    PrefixAtMostTotal(text, i + 1);
    assert PrefixLength(text, i + 1) >= column by {
      if i + 1 == |text| { assert text[..i + 1] == text; }
    }
    if i > 0 {
      assert PrefixLength(text, i) < column;
    } else {
      assert text[..0] == [];
    }
  }

  /** Boundary ownership: column 0 resolves to (0, 0), and any later column of the line
      resolves strictly inside or at the end of its segment, never at an offset of 0. */
  lemma LocateOwnsBoundaryLeft(text: seq<Segment>, column: int)
    requires |text| > 0 && 0 <= column <= SumLengths(text)
    ensures column == 0 ==> Locate(text, column) == SegmentInfo(0, 0)
    ensures column > 0 ==> Locate(text, column).positionInSegment >= 1
  {
    var i := Locate(text, column).activeSegmentIndex;
    LocateFirstFit(text, column);
    LocateRoundTrip(text, column);
    if i > 0 {
      assert PrefixLength(text, i) < column;
    } else {
      assert text[..0] == [];
    }
  }

  /** A column past the line's content resolves to the last segment at its own end. */
  lemma LocateBeyondEnd(text: seq<Segment>, column: int)
    requires |text| > 0 && column > SumLengths(text)
    ensures Locate(text, column) == SegmentInfo(|text| - 1, |text[|text| - 1].content|)
  {
    var i := Locate(text, column).activeSegmentIndex;
    LocateFirstFit(text, column);
    PrefixAtMostTotal(text, i + 1);
  }

  /** The merge branch of handleBackspace (offset 0 in a segment other than the first) is never
      taken for a column within the line. */
  lemma MergeBranchUnreachable(text: seq<Segment>, column: int)
    requires |text| > 0 && 0 <= column <= SumLengths(text)
    ensures var r := Locate(text, column); !(r.positionInSegment == 0 && r.activeSegmentIndex > 0)
  {
    LocateOwnsBoundaryLeft(text, column);
  }

  /** The character just left of a column within the line is the one before the resolved offset. */
  lemma CharBeforeColumn(text: seq<Segment>, column: int)
    requires 0 < column <= SumLengths(text)
    ensures |text| > 0
    ensures var r := Locate(text, column);
      && 1 <= r.positionInSegment <= |text[r.activeSegmentIndex].content|
      && Flat(text)[column - 1] == text[r.activeSegmentIndex].content[r.positionInSegment - 1]
  {
    var r := Locate(text, column);
    LocateRoundTrip(text, column);
    LocateOwnsBoundaryLeft(text, column);
    CharInSegment(text, r.activeSegmentIndex, r.positionInSegment - 1);
  }

  /** Character `p` of segment `i` sits at the flat index given by the preceding lengths. */
  lemma CharInSegment(text: seq<Segment>, i: int, p: int)
    requires 0 <= i < |text| && 0 <= p < |text[i].content|
    ensures PrefixLength(text, i) + p < |Flat(text)|
    ensures Flat(text)[PrefixLength(text, i) + p] == text[i].content[p]
  {
    FlatAround(text, i);
    var pre, c, post := Flat(text[..i]), text[i].content, Flat(text[i + 1..]);
    assert Flat(text) == pre + c + post;
    assert (pre + c + post)[|pre| + p] == c[p];
  }

  // ---------------------------------------------------------------------------
  // Editing one line

  /** handleInsertText: only the resolved segment is replaced; the cached length grows by one. */
  function HandleInsertText(currentLine: Line, ch: string, segmentInfo: SegmentInfo): (r: Line)
    requires 0 <= segmentInfo.activeSegmentIndex < |currentLine.text|
    ensures |r.text| == |currentLine.text| && r.length == currentLine.length + 1
    ensures forall j :: 0 <= j < |r.text| && j != segmentInfo.activeSegmentIndex ==> r.text[j] == currentLine.text[j]
    ensures r.text[segmentInfo.activeSegmentIndex].styles == currentLine.text[segmentInfo.activeSegmentIndex].styles
    ensures SumLengths(r.text) == SumLengths(currentLine.text) + |ch|
  {
    var i := segmentInfo.activeSegmentIndex;
    var newSegments := currentLine.text;
    var updated := CreateUpdatedSegment(newSegments[i], segmentInfo.positionInSegment, ch, true);
    FlatReplace(newSegments, i, updated);
    FlatAround(newSegments, i);
    Line(newSegments[i := updated], currentLine.length + 1)
  }

  /** handleBackspace: with offset 0 in a later segment, merge it into its left neighbour (the
      left styles win) and remove it; otherwise drop the character before the offset. Both
      branches lower the cached length by one. */
  function HandleBackspace(currentLine: Line, segmentInfo: SegmentInfo): (r: Line)
    requires 0 <= segmentInfo.activeSegmentIndex < |currentLine.text|
    ensures r.length == currentLine.length - 1
    ensures var i := segmentInfo.activeSegmentIndex;
      segmentInfo.positionInSegment == 0 && i > 0 ==>
        && |r.text| == |currentLine.text| - 1
        && Flat(r.text) == Flat(currentLine.text)
        && r.text[..i - 1] == currentLine.text[..i - 1]
        && r.text[i..] == currentLine.text[i + 1..]
        && r.text[i - 1].styles == currentLine.text[i - 1].styles
        && (CacheConsistent(currentLine) ==> !CacheConsistent(r))
    ensures var i := segmentInfo.activeSegmentIndex;
      !(segmentInfo.positionInSegment == 0 && i > 0) ==>
        && |r.text| == |currentLine.text|
        && (forall j :: 0 <= j < |r.text| && j != i ==> r.text[j] == currentLine.text[j])
        && r.text[i].styles == currentLine.text[i].styles
  {
    var i := segmentInfo.activeSegmentIndex;
    var text := currentLine.text;
    if segmentInfo.positionInSegment == 0 && i > 0 then
      var newSegments := text;
      var mergedSegment := MergeSegments(newSegments[i - 1], newSegments[i]);
      var merged := newSegments[i - 1 := mergedSegment];
      var spliced := merged[..i] + merged[i + 1..];
      MergeKeepsText(text, i);
      Line(spliced, currentLine.length - 1)
    else
      var newSegments := text;
      Line(newSegments[i := CreateUpdatedSegment(newSegments[i], segmentInfo.positionInSegment, [], false)],
           currentLine.length - 1)
  }

  lemma FlatAroundPair(text: seq<Segment>, i: int)
    requires 0 < i < |text|
    ensures Flat(text) == Flat(text[..i - 1]) + (text[i - 1].content + text[i].content) + Flat(text[i + 1..])
  {
    var pre, x, y, post := Flat(text[..i - 1]), text[i - 1].content, text[i].content, Flat(text[i + 1..]);
    FlatAround(text, i - 1);
    assert text[i..][1..] == text[i + 1..];
    assert Flat(text[i..]) == y + post;
    StringRegroup(pre, x, y, post);
  }

  lemma MergeKeepsText(text: seq<Segment>, i: int)
    requires 0 < i < |text|
    ensures var merged := text[i - 1 := MergeSegments(text[i - 1], text[i])];
      Flat(merged[..i] + merged[i + 1..]) == Flat(text)
  {
    var m := MergeSegments(text[i - 1], text[i]);
    var merged := text[i - 1 := m];
    assert merged[..i] + merged[i + 1..] == text[..i - 1] + [m] + text[i + 1..];
    FlatThree(text[..i - 1], m, text[i + 1..]);
    FlatAroundPair(text, i);
  }

  /** The segments kept for one half of a split: an empty half is dropped (`content ? [..] : []`). */
  function KeepNonEmpty(s: Segment): (r: seq<Segment>)
    ensures Flat(r) == s.content
    ensures forall k :: 0 <= k < |r| ==> r[k] == s && s.content != []
    ensures |r| <= 1
  {
    FlatSingle(s);
    if s.content != [] then [s] else []
  }

  lemma SplitKeepsText(text: seq<Segment>, i: int, before: Segment, after: Segment)
    requires 0 <= i < |text| && before.content + after.content == text[i].content
    ensures Flat(text[..i] + KeepNonEmpty(before)) + Flat(KeepNonEmpty(after) + text[i + 1..]) == Flat(text)
  {
    var pre, post := Flat(text[..i]), Flat(text[i + 1..]);
    FlatConcat(text[..i], KeepNonEmpty(before));
    FlatConcat(KeepNonEmpty(after), text[i + 1..]);
    FlatAround(text, i);
    StringRegroup(pre, before.content, after.content, post);
  }

  lemma StringRegroup(a: string, b: string, c: string, d: string)
    ensures (a + b) + (c + d) == a + (b + c) + d
  {
  }

  /** newLineWithTextFromCurrentLine's two lines: the segments before the resolved one plus the
      non-empty before-half, and the non-empty after-half plus the segments after it; both
      lengths are recomputed from the segments. */
  function SplitLine(currentLine: Line, segmentInfo: SegmentInfo): (r: (Line, Line))
    requires 0 <= segmentInfo.activeSegmentIndex < |currentLine.text|
    ensures Flat(r.0.text) + Flat(r.1.text) == Flat(currentLine.text)
    ensures CacheConsistent(r.0) && CacheConsistent(r.1)
    ensures var i := segmentInfo.activeSegmentIndex;
      && i <= |r.0.text| <= i + 1 && r.0.text[..i] == currentLine.text[..i]
      && (forall k :: i <= k < |r.0.text| ==> r.0.text[k].content != [] && r.0.text[k].styles == currentLine.text[i].styles)
    ensures var i := segmentInfo.activeSegmentIndex; var m := |r.1.text| - (|currentLine.text| - i - 1);
      && 0 <= m <= 1 && r.1.text[m..] == currentLine.text[i + 1..]
      && (forall k :: 0 <= k < m ==> r.1.text[k].content != [] && r.1.text[k].styles == currentLine.text[i].styles)
  {
    var i := segmentInfo.activeSegmentIndex;
    var text := currentLine.text;
    var halves := SplitSegment(text[i], segmentInfo.positionInSegment);
    var beforeSegments := text[..i] + KeepNonEmpty(halves.0);
    var afterSegments := KeepNonEmpty(halves.1) + text[i + 1..];
    SplitKeepsText(text, i, halves.0, halves.1);
    assert beforeSegments[..i] == text[..i];
    (Line(beforeSegments, SumLengths(beforeSegments)), Line(afterSegments, SumLengths(afterSegments)))
  }

  /** createLine(content): one segment with styles `{}` and the content's length. */
  function CreatedLine(content: string): (r: Line)
    ensures CacheConsistent(r) && Flat(r.text) == content
    ensures |r.text| == 1 && r.text[0].styles == NoStyles
  {
    FlatSingle(Segment(content, NoStyles));
    Line([Segment(content, NoStyles)], |content|)
  }

  // ---------------------------------------------------------------------------
  // The edits at a column

  /** Inserting into the middle of one part of a three-part string. */
  lemma StringInsert(f: string, pre: string, c: string, post: string, p: int, ch: string)
    requires f == pre + c + post && 0 <= p <= |c|
    ensures f[..|pre| + p] + ch + f[|pre| + p..] == pre + (c[..p] + ch + c[p..]) + post
  {
    var k := |pre| + p;
    assert f[..k] == pre + c[..p];
    assert f[k..] == c[p..] + post;
  }

  /** Deleting from the middle of one part of a three-part string. */
  lemma StringDelete(f: string, pre: string, c: string, post: string, p: int)
    requires f == pre + c + post && 1 <= p <= |c|
    ensures f[..|pre| + p - 1] + f[|pre| + p..] == pre + (c[..p - 1] + c[p..]) + post
  {
    var k := |pre| + p;
    assert f[..k - 1] == pre + c[..p - 1];
    assert f[k..] == c[p..] + post;
  }

  /** Insert: at a column within a non-empty line, the flat text gains `ch` exactly there. */
  lemma InsertAtColumn(line: Line, ch: string, column: int)
    requires |line.text| > 0 && 0 <= column <= SumLengths(line.text)
    ensures var r := HandleInsertText(line, ch, Locate(line.text, column));
      Flat(r.text) == Flat(line.text)[..column] + ch + Flat(line.text)[column..]
  {
    var text := line.text;
    var info := Locate(text, column);
    var i, p := info.activeSegmentIndex, info.positionInSegment;
    LocateRoundTrip(text, column);
    InsertFlat(text, i, p, CreateUpdatedSegment(text[i], p, ch, true), ch);
  }

  /** Segment `i` before and after replacing it by `s`, with the same text around it. */
  lemma FlatSplice(text: seq<Segment>, i: int, s: Segment)
    requires 0 <= i < |text|
    ensures var pre, post := Flat(text[..i]), Flat(text[i + 1..]);
      && Flat(text) == pre + text[i].content + post
      && Flat(text[i := s]) == pre + s.content + post
      && |pre| == PrefixLength(text, i)
  {
    FlatAround(text, i);
    FlatReplace(text, i, s);
  }

  /** Splicing `ch` into segment `i` at offset `p` splices it into the flat text. */
  lemma InsertFlat(text: seq<Segment>, i: int, p: int, s: Segment, ch: string)
    requires 0 <= i < |text| && 0 <= p <= |text[i].content|
    requires s.content == text[i].content[..p] + ch + text[i].content[p..]
    ensures var k := PrefixLength(text, i) + p;
      && k <= |Flat(text)|
      && Flat(text[i := s]) == Flat(text)[..k] + ch + Flat(text)[k..]
  {
    var pre, c, post := Flat(text[..i]), text[i].content, Flat(text[i + 1..]);
    FlatSplice(text, i, s);
    var f, g := Flat(text), Flat(text[i := s]);
    StringInsert(f, pre, c, post, p, ch);
    var k := |pre| + p;
    assert g == f[..k] + ch + f[k..];
  }

  /** Removing character `p - 1` of segment `i` removes it from the flat text. */
  lemma BackspaceFlat(text: seq<Segment>, i: int, p: int, s: Segment)
    requires 0 <= i < |text| && 1 <= p <= |text[i].content|
    requires s.content == text[i].content[..p - 1] + text[i].content[p..]
    ensures var k := PrefixLength(text, i) + p;
      && k <= |Flat(text)|
      && Flat(text[i := s]) == Flat(text)[..k - 1] + Flat(text)[k..]
  {
    var pre, c, post := Flat(text[..i]), text[i].content, Flat(text[i + 1..]);
    FlatSplice(text, i, s);
    var f, g := Flat(text), Flat(text[i := s]);
    StringDelete(f, pre, c, post, p);
    var k := |pre| + p;
    assert g == f[..k - 1] + f[k..];
  }

  /** Backspace: at a column 1..length of a non-empty line, exactly the character before the
      column disappears from the flat text, the segment count is unchanged and so are the
      other segments. */
  lemma BackspaceAtColumn(line: Line, column: int)
    requires |line.text| > 0 && 0 < column <= SumLengths(line.text)
    ensures var info := Locate(line.text, column); var r := HandleBackspace(line, info);
      && |r.text| == |line.text|
      && Flat(r.text) == Flat(line.text)[..column - 1] + Flat(line.text)[column..]
      && SumLengths(r.text) == SumLengths(line.text) - 1
      && (forall j :: 0 <= j < |r.text| && j != info.activeSegmentIndex ==> r.text[j] == line.text[j])
  {
    var text := line.text;
    var info := Locate(text, column);
    var i, p := info.activeSegmentIndex, info.positionInSegment;
    LocateRoundTrip(text, column);
    LocateOwnsBoundaryLeft(text, column);
    var updated := CreateUpdatedSegment(text[i], p, [], false);
    assert HandleBackspace(line, info).text == text[i := updated];
    BackspaceFlat(text, i, p, updated);
  }

  /** Enter's split at a column within a non-empty line: the before-line holds exactly the text
      up to the column (so its length is the column) and the after-line the rest. */
  lemma SplitAtColumn(line: Line, column: int)
    requires |line.text| > 0 && 0 <= column <= SumLengths(line.text)
    ensures var halves := SplitLine(line, Locate(line.text, column));
      && Flat(halves.0.text) == Flat(line.text)[..column]
      && Flat(halves.1.text) == Flat(line.text)[column..]
      && halves.0.length == column
  {
    var text := line.text;
    var info := Locate(text, column);
    var i, p := info.activeSegmentIndex, info.positionInSegment;
    LocateRoundTrip(text, column);
    var halves := SplitSegment(text[i], p);
    FlatConcat(text[..i], KeepNonEmpty(halves.0));
    var split := SplitLine(line, info);
    assert split.0.text == text[..i] + KeepNonEmpty(halves.0);
    assert |Flat(split.0.text)| == column;
    var f := Flat(text);
    assert f == Flat(split.0.text) + Flat(split.1.text);
    assert f[..column] == Flat(split.0.text);
  }
}
