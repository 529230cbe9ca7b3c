/** Styled text runs of one line (src/context/EditorProvider.jsx:3-13, 80-96). */
module Segments {
  import opened Wrappers
  import opened JsText

  /** TextStyle: an optional bold flag and an optional colour. A segment written without
      `styles` and one with `{}` are both `NoStyles`: the only reader (`segment?.styles?.color`)
      and the spread copy `{...styles}` do not tell them apart. */
  datatype Styles = Styles(bold: Option<bool>, color: Option<string>)

  const NoStyles := Styles(None, None)

  /** TextSegment: its content and its styles. */
  datatype Segment = Segment(content: string, styles: Styles)

  /** createUpdatedSegment: insert `ch` at `position`, or (when not inserting) drop the
      character just before `position`, keeping the styles. Positions are passed to `slice`,
      so a position of 0 when deleting means `slice(0, -1)`. */
  function CreateUpdatedSegment(segment: Segment, position: int, ch: string, isInserting: bool): (r: Segment)
    ensures r.styles == segment.styles
    ensures isInserting ==> |r.content| == |segment.content| + |ch|
    ensures isInserting && 0 <= position <= |segment.content| ==>
      r.content == segment.content[..position] + ch + segment.content[position..]
    ensures !isInserting && 1 <= position <= |segment.content| ==>
      |r.content| == |segment.content| - 1 &&
      r.content == segment.content[..position - 1] + segment.content[position..]
    ensures !isInserting && position == 0 && segment.content != [] ==>
      r.content == segment.content[..|segment.content| - 1] + segment.content
  {
    var c := segment.content;
    if isInserting then
      SliceAtSplits(c, position);
      Segment(Slice(c, 0, position) + ch + Slice(c, position, |c|), segment.styles)
    else
      SliceToMinusOne(c);
      Segment(Slice(c, 0, position - 1) + Slice(c, position, |c|), segment.styles)
  }

  /** mergeSegments: the left segment's styles win. */
  function MergeSegments(prevSegment: Segment, currentSegment: Segment): (r: Segment)
    ensures r.styles == prevSegment.styles
    ensures |r.content| == |prevSegment.content| + |currentSegment.content|
    ensures r.content[..|prevSegment.content|] == prevSegment.content
    ensures r.content[|prevSegment.content|..] == currentSegment.content
  {
    Segment(prevSegment.content + currentSegment.content, prevSegment.styles)
  }

  /** The before and after halves Enter cuts the active segment into
      (`content.slice(0, p)`, `content.slice(p)`, each with a copy of the styles). */
  function SplitSegment(segment: Segment, position: int): (r: (Segment, Segment))
    ensures r.0.styles == segment.styles && r.1.styles == segment.styles
    ensures MergeSegments(r.0, r.1) == segment
    ensures 0 <= position <= |segment.content| ==> |r.0.content| == position
  {
    var c := segment.content;
    SliceAtSplits(c, position);
    (Segment(Slice(c, 0, position), segment.styles), Segment(Slice(c, position, |c|), segment.styles))
  }
}
