/**
 Prose lines of a Markdown text: the lines outside code blocks that keep some text once the HTML comments are gone.
 Comments are ranges of source offsets, in any order and possibly overlapping, that run across line boundaries.
 */
module CommentSweep {
  import opened Strings

  /** A half-open range: of source offsets for a comment, of columns for what it covers of a line. */
  datatype Range = Range(start: int, end: int)

  /** The first and the last line of a code block, counted from 1. */
  datatype Block = Block(first: int, last: int)

  datatype ProseLine = ProseLine(index: nat, raw: string)

  // ---- Lines -------------------------------------------------------------------------------------------------------

  function LinesOf(source: string): seq<string> {
    SplitAt(source, '\n')
  }

  function LineOffset(lines: seq<string>, k: nat): nat
    requires k <= |lines|
  {
    if k == 0 then 0 else LineOffset(lines, k - 1) + |lines[k - 1]| + 1
  }

  /** Line k is the text of the source between its offset and the next newline. */
  lemma LinesAreSlices(source: string, k: nat)
    requires k < |LinesOf(source)|
    ensures
      var lines := LinesOf(source);
      var from := LineOffset(lines, k);
      from + |lines[k]| <= |source| && source[from..from + |lines[k]|] == lines[k]
  {
    SplitsAreSlices(source, 0, 0, "", k);
  }

  lemma {:induction false} SplitsAreSlices(source: string, start: nat, i: nat, raw: string, k: nat)
    requires start <= i <= |source| && source[start..i] == raw && k < |SplitFrom(source, i, raw, '\n')|
    ensures
      var lines := SplitFrom(source, i, raw, '\n');
      var from := start + LineOffset(lines, k);
      from + |lines[k]| <= |source| && source[from..from + |lines[k]|] == lines[k]
    decreases |source| - i
  {
    if i < |source| {
      if source[i] == '\n' {
        if k > 0 {
          var rest := SplitFrom(source, i + 1, "", '\n');
          SplitsAreSlices(source, i + 1, i + 1, "", k - 1);
          OffsetBehindFirst(raw, rest, k - 1);
          assert SplitFrom(source, i, raw, '\n') == [raw] + rest;
        }
      } else {
        assert source[start..i + 1] == raw + [source[i]];
        SplitsAreSlices(source, start, i + 1, raw + [source[i]], k);
      }
    }
  }

  lemma {:induction false} OffsetBehindFirst(first: string, rest: seq<string>, k: nat)
    requires k <= |rest|
    ensures LineOffset([first] + rest, k + 1) == |first| + 1 + LineOffset(rest, k)
    decreases k
  {
    if k > 0 {
      OffsetBehindFirst(first, rest, k - 1);
    }
  }

  // ---- Comments in raw HTML ----------------------------------------------------------------------------------------

  /** A raw HTML node: where it starts in the source, and its text. */
  datatype Html = Html(offset: nat, value: string)

  const OPEN := "<!--"

  const CLOSE := "-->"

  /** Behind the mark that closes a comment whose text starts at i, or at the end when none does. */
  function CommentEnd(value: string, i: nat): (end: nat)
    requires i <= |value|
    ensures i <= end <= |value|
  {
    match IndexFrom(value, i, CLOSE)
    case None => |value|
    case Some(close) => close + |CLOSE|
  }

  /** The comments from the cursor on: the search goes on behind each comment. */
  function CommentsFrom(value: string, cursor: nat): seq<Range>
    requires cursor <= |value|
    decreases |value| - cursor
  {
    match IndexFrom(value, cursor, OPEN)
    case None => []
    case Some(start) =>
      var end := CommentEnd(value, start + |OPEN|);
      [Range(start, end)] + CommentsFrom(value, end)
  }

  function Shifted(ranges: seq<Range>, by_: int): seq<Range> {
    seq(|ranges|, i requires 0 <= i < |ranges| => Range(ranges[i].start + by_, ranges[i].end + by_))
  }

  function CommentsOf(nodes: seq<Html>): seq<Range>
    decreases nodes
  {
    if nodes == [] then []
    else
      var last := nodes[|nodes| - 1];
      CommentsOf(nodes[..|nodes| - 1]) + Shifted(CommentsFrom(last.value, 0), last.offset)
  }

  /**
   A range that opens with the opening mark and runs to the first closing mark behind it, or to the end without one.
   */
  ghost predicate IsComment(value: string, r: Range) {
    && 0 <= r.start && r.start + |OPEN| <= r.end <= |value| && StartsAt(value, r.start, OPEN)
    && (forall k | r.start + |OPEN| <= k < r.end - |CLOSE| :: !StartsAt(value, k, CLOSE))
    && (r.end == |value| || (r.end - |CLOSE| >= r.start + |OPEN| && StartsAt(value, r.end - |CLOSE|, CLOSE)))
  }

  /** Comments, one behind the other, and outside them none opens. */
  ghost predicate AllComments(value: string, cursor: int, rs: seq<Range>) {
    && (forall j | 0 <= j < |rs| :: IsComment(value, rs[j]) && cursor <= rs[j].start)
    && InOrder(rs)
    && OpensInside(value, cursor, rs)
  }

  ghost predicate InOrder(rs: seq<Range>) {
    forall i, j | 0 <= i < j < |rs| :: rs[i].end <= rs[j].start
  }

  ghost predicate OpensInside(value: string, cursor: int, rs: seq<Range>) {
    forall i: nat | cursor <= i && StartsAt(value, i, OPEN) :: Covered(rs, i)
  }

  lemma CoveredByCons(r: Range, rest: seq<Range>, o: int)
    ensures Covered([r] + rest, o) <==> In(r, o) || Covered(rest, o)
  {
    var rs := [r] + rest;
    assert rs[0] == r;
    if Covered(rest, o) {
      var j :| 0 <= j < |rest| && In(rest[j], o);
      assert rs[j + 1] == rest[j];
    }
  }

  lemma OpensInsideMore(value: string, cursor: nat, r: Range, rest: seq<Range>)
    requires OpensInside(value, r.end, rest)
    requires forall i: nat | cursor <= i < r.start :: !StartsAt(value, i, OPEN)
    ensures OpensInside(value, cursor, [r] + rest)
  {
    hide StartsAt, Covered;
    forall i: nat | cursor <= i && StartsAt(value, i, OPEN) ensures Covered([r] + rest, i) {
      CoveredByCons(r, rest, i);
    }
  }

  lemma InOrderMore(r: Range, rest: seq<Range>)
    requires InOrder(rest) && forall j | 0 <= j < |rest| :: r.end <= rest[j].start
    ensures InOrder([r] + rest)
  {}

  lemma CommentInFront(value: string, cursor: nat, r: Range, rest: seq<Range>)
    requires AllComments(value, r.end, rest) && IsComment(value, r) && cursor <= r.start
    requires forall i: nat | cursor <= i < r.start :: !StartsAt(value, i, OPEN)
    ensures AllComments(value, cursor, [r] + rest)
  {
    assert r.start <= r.end;
    hide StartsAt, IsComment, Covered, InOrder, OpensInside;
    OpensInsideMore(value, cursor, r, rest);
    InOrderMore(r, rest);
  }

  lemma CommentIsComment(value: string, start: nat)
    requires StartsAt(value, start, OPEN)
    ensures start + |OPEN| <= |value| && IsComment(value, Range(start, CommentEnd(value, start + |OPEN|)))
  {
    assert start + |OPEN| <= |value|;
    hide StartsAt;
  }

  /** The ranges found in a node are its comments, and they are all of them. */
  lemma {:induction false} CommentsAreExact(value: string, cursor: nat)
    requires cursor <= |value|
    ensures AllComments(value, cursor, CommentsFrom(value, cursor))
    decreases |value| - cursor
  {
    var found := IndexFrom(value, cursor, OPEN);
    if found.Some? {
      CommentIsComment(value, found.value);
      var end := CommentEnd(value, found.value + |OPEN|);
      hide IsComment, StartsAt, AllComments, CommentEnd;
      CommentsAreExact(value, end);
      CommentInFront(value, cursor, Range(found.value, end), CommentsFrom(value, end));
    } else {
      assert forall i: nat | cursor <= i :: !StartsAt(value, i, OPEN);
    }
  }

  lemma ShiftedJoins(a: seq<Range>, b: seq<Range>, by_: int)
    ensures Shifted(a + b, by_) == Shifted(a, by_) + Shifted(b, by_)
  {}

  lemma CommentsFromStep(value: string, cursor: nat)
    requires cursor <= |value|
    ensures
      match IndexFrom(value, cursor, OPEN)
      case None => CommentsFrom(value, cursor) == []
      case Some(start) =>
        start + |OPEN| <= |value|
        && var close := IndexFrom(value, start + |OPEN|, CLOSE);
           var end := if close.None? then |value| else close.value + |CLOSE|;
           start < end <= |value| && CommentsFrom(value, cursor) == [Range(start, end)] + CommentsFrom(value, end)
  {}

  /** The loop over the comments of one node. */
  method NodeComments(node: Html) returns (comments: seq<Range>)
    ensures comments == Shifted(CommentsFrom(node.value, 0), node.offset)
  {
    hide *;
    comments := [];
    var cursor := 0;
    ghost var done: seq<Range> := [];
    ShiftedJoins([], [], node.offset);
    NothingShifted(node.offset);
    assert done + CommentsFrom(node.value, 0) == CommentsFrom(node.value, 0);
    while true
      invariant cursor <= |node.value| && done + CommentsFrom(node.value, cursor) == CommentsFrom(node.value, 0)
      invariant comments == Shifted(done, node.offset)
      decreases |node.value| - cursor
    {
      var start := IndexFrom(node.value, cursor, OPEN);
      CommentsFromStep(node.value, cursor);
      if start.None? {
        assert done + [] == done;
        return;
      }
      var close := IndexFrom(node.value, start.value + |OPEN|, CLOSE);
      var end := if close.None? then |node.value| else close.value + |CLOSE|;
      assert done + ([Range(start.value, end)] + CommentsFrom(node.value, end))
          == done + [Range(start.value, end)] + CommentsFrom(node.value, end);
      OneShifted(Range(start.value, end), node.offset);
      ShiftedJoins(done, [Range(start.value, end)], node.offset);
      comments := comments + [Range(node.offset + start.value, node.offset + end)];
      done := done + [Range(start.value, end)];
      cursor := end;
    }
  }

  lemma NothingShifted(by_: int)
    ensures Shifted([], by_) == []
  {}

  lemma OneShifted(r: Range, by_: int)
    ensures Shifted([r], by_) == [Range(by_ + r.start, by_ + r.end)]
  {}

  /** The comments of a node, shifted by its offset. */
  function CommentsIn(node: Html): seq<Range> {
    Shifted(CommentsFrom(node.value, 0), node.offset)
  }

  lemma CommentsOfMore(nodes: seq<Html>, node: Html)
    ensures CommentsOf(nodes + [node]) == CommentsOf(nodes) + CommentsIn(node)
  {
    hide CommentsFrom, Shifted;
    assert (nodes + [node])[..|nodes|] == nodes;
  }

  lemma {:induction false} CommentsOfJoined(a: seq<Html>, b: seq<Html>)
    ensures CommentsOf(a + b) == CommentsOf(a) + CommentsOf(b)
    decreases b
  {
    hide CommentsIn, CommentsOf;
    if b == [] {
      assert a + b == a;
      NoNodes();
      assert CommentsOf(a) + [] == CommentsOf(a);
    } else {
      var front, last := b[..|b| - 1], b[|b| - 1];
      CommentsOfJoined(a, front);
      CommentsOfMore(front, last);
      CommentsOfMore(a + front, last);
      assert front + [last] == b && a + front + [last] == a + b;
      Associates(CommentsOf(a), CommentsOf(front), CommentsIn(last));
    }
  }

  lemma Associates<T>(a: seq<T>, b: seq<T>, c: seq<T>)
    ensures a + b + c == a + (b + c)
  {}

  lemma NoNodes()
    ensures CommentsOf([]) == []
  {}

  /** The place of a node's comments in the list of all. */
  lemma EachNodeHasItsPlace(before: seq<Html>, node: Html, after: seq<Html>)
    ensures CommentsOf(before + [node] + after) == CommentsOf(before) + CommentsIn(node) + CommentsOf(after)
  {
    hide *;
    CommentsOfMore(before, node);
    CommentsOfJoined(before + [node], after);
  }

  lemma {:induction false} EachRangeHasItsNode(nodes: seq<Html>, j: nat) returns (k: nat, i: nat)
    requires j < |CommentsOf(nodes)|
    ensures k < |nodes| && i < |CommentsIn(nodes[k])| && CommentsOf(nodes)[j] == CommentsIn(nodes[k])[i]
    decreases nodes
  {
    var n := |nodes| - 1;
    var front := nodes[..n];
    CommentsOfMore(front, nodes[n]);
    assert front + [nodes[n]] == nodes;
    hide CommentsIn, CommentsOf;
    if j < |CommentsOf(front)| {
      k, i := EachRangeHasItsNode(front, j);
      assert front[k] == nodes[k];
    } else {
      k, i := n, j - |CommentsOf(front)|;
    }
  }

  /**
   Each node of the list contributes: wherever a comment opens in one of them, the place shifted by the offset of that
   node is covered.
   */
  lemma EveryNodeContributes(nodes: seq<Html>, k: nat, i: nat)
    requires k < |nodes| && StartsAt(nodes[k].value, i, OPEN)
    ensures Covered(CommentsOf(nodes), nodes[k].offset + i)
  {
    hide *;
    var before, node, after := nodes[..k], nodes[k], nodes[k + 1..];
    assert nodes == before + [node] + after;
    NodeCovers(node, i);
    EachNodeHasItsPlace(before, node, after);
    CoveredInside(CommentsOf(before), CommentsIn(node), CommentsOf(after), node.offset + i);
  }

  /** And each range of the list is a comment of one of the nodes, so shifted. */
  lemma EveryRangeIsContributed(nodes: seq<Html>, j: nat) returns (k: nat)
    requires j < |CommentsOf(nodes)|
    ensures k < |nodes|
    ensures
      var r := CommentsOf(nodes)[j];
      IsComment(nodes[k].value, Range(r.start - nodes[k].offset, r.end - nodes[k].offset))
  {
    hide *;
    var i: nat;
    k, i := EachRangeHasItsNode(nodes, j);
    NodeShows(nodes[k], i);
  }

  lemma NodeCovers(node: Html, i: nat)
    requires StartsAt(node.value, i, OPEN)
    ensures Covered(CommentsIn(node), node.offset + i)
  {
    hide StartsAt, IsComment, CommentsFrom;
    var found := CommentsFrom(node.value, 0);
    CommentsAreExact(node.value, 0);
    var j :| 0 <= j < |found| && In(found[j], i);
    assert In(CommentsIn(node)[j], node.offset + i);
  }

  lemma NodeShows(node: Html, i: nat)
    requires i < |CommentsIn(node)|
    ensures
      var r := CommentsIn(node)[i];
      IsComment(node.value, Range(r.start - node.offset, r.end - node.offset))
  {
    hide StartsAt, IsComment, CommentsFrom;
    CommentsAreExact(node.value, 0);
  }

  lemma CoveredInside(a: seq<Range>, b: seq<Range>, c: seq<Range>, o: int)
    requires Covered(b, o)
    ensures Covered(a + b + c, o)
  {
    var j :| 0 <= j < |b| && In(b[j], o);
    assert (a + b + c)[|a| + j] == b[j];
  }

  /** The comments of all raw HTML nodes, as ranges of source offsets. */
  method HtmlComments(nodes: seq<Html>) returns (comments: seq<Range>)
    ensures comments == CommentsOf(nodes)
  {
    hide Shifted, CommentsFrom;
    comments := [];
    for k := 0 to |nodes|
      invariant comments == CommentsOf(nodes[..k])
    {
      var more := NodeComments(nodes[k]);
      assert nodes[..k + 1][..k] == nodes[..k];
      comments := comments + more;
    }
    assert nodes[..|nodes|] == nodes;
  }

  // ---- What the text shows -----------------------------------------------------------------------------------------

  predicate In(r: Range, o: int) {
    r.start <= o < r.end
  }

  ghost predicate Covered(ranges: seq<Range>, o: int) {
    exists j | 0 <= j < |ranges| :: In(ranges[j], o)
  }

  /** Column i of line k lies in the comment. */
  predicate InColumn(c: Range, lines: seq<string>, k: nat, i: int)
    requires k < |lines|
  {
    In(c, LineOffset(lines, k) + i)
  }

  ghost predicate ColumnCovered(comments: seq<Range>, lines: seq<string>, k: nat, i: int)
    requires k < |lines|
  {
    Covered(comments, LineOffset(lines, k) + i)
  }

  /** A comment reaches into the line, or over the line break of an empty line. */
  ghost predicate Touches(lines: seq<string>, k: nat, c: Range)
    requires k < |lines|
  {
    (exists i | 0 <= i < |lines[k]| :: InColumn(c, lines, k, i)) || (lines[k] == "" && InColumn(c, lines, k, 0))
  }

  ghost predicate Touched(lines: seq<string>, comments: seq<Range>, k: nat)
    requires k < |lines|
  {
    exists j | 0 <= j < |comments| :: Touches(lines, k, comments[j])
  }

  /** Some character of the line lies in no comment and is not whitespace. */
  ghost predicate ShowsText(lines: seq<string>, comments: seq<Range>, k: nat)
    requires k < |lines|
  {
    exists i | 0 <= i < |lines[k]| :: !IsSpace(lines[k][i]) && !ColumnCovered(comments, lines, k, i)
  }

  ghost predicate InCode(blocks: seq<Block>, line: int) {
    exists j | 0 <= j < |blocks| :: blocks[j].first <= line <= blocks[j].last
  }

  ghost predicate Kept(lines: seq<string>, comments: seq<Range>, blocks: seq<Block>, k: nat)
    requires k < |lines|
  {
    !InCode(blocks, k + 1) && (Touched(lines, comments, k) ==> ShowsText(lines, comments, k))
  }

  ghost function ProseOf(lines: seq<string>, comments: seq<Range>, blocks: seq<Block>, k: nat): seq<ProseLine>
    requires k <= |lines|
  {
    if k == 0 then []
    else ProseOf(lines, comments, blocks, k - 1)
         + if Kept(lines, comments, blocks, k - 1) then [ProseLine(k, lines[k - 1])] else []
  }

  // ---- Columns covered on each line --------------------------------------------------------------------------------

  predicate IsColumns(r: Range, raw: string) {
    0 <= r.start <= r.end <= |raw|
  }

  /**
   The column ranges of a line say of each column whether a comment covers it, and there are some exactly when one
   touches.
   */
  ghost predicate ColumnsOf(lines: seq<string>, comments: seq<Range>, k: nat, ranges: seq<Range>)
    requires k < |lines|
  {
    && (forall j | 0 <= j < |ranges| :: IsColumns(ranges[j], lines[k]))
    && (forall i | 0 <= i < |lines[k]| :: Covered(ranges, i) <==> ColumnCovered(comments, lines, k, i))
    && (ranges != [] <==> Touched(lines, comments, k))
  }

  lemma {:induction false} CoveredBySnoc(ranges: seq<Range>, r: Range, o: int)
    ensures Covered(ranges + [r], o) <==> Covered(ranges, o) || In(r, o)
  {
    var more := ranges + [r];
    assert more[|ranges|] == r;
    if Covered(ranges, o) {
      var j :| 0 <= j < |ranges| && In(ranges[j], o);
      assert more[j] == ranges[j];
    }
  }

  lemma TouchedBySnoc(lines: seq<string>, comments: seq<Range>, k: nat, c: Range)
    requires k < |lines|
    ensures Touched(lines, comments + [c], k) <==> Touched(lines, comments, k) || Touches(lines, k, c)
  {
    var more := comments + [c];
    assert more[|comments|] == c;
    if Touched(lines, comments, k) {
      var j :| 0 <= j < |comments| && Touches(lines, k, comments[j]);
      assert more[j] == comments[j];
    }
  }

  /** The columns of line k that a comment covers, if it touches the line. */
  function Clipped(lines: seq<string>, k: nat, c: Range): seq<Range>
    requires k < |lines|
  {
    var lineOffset := LineOffset(lines, k);
    var lineEnd := lineOffset + |lines[k]|;
    var from := if c.start > lineOffset then c.start else lineOffset;
    var to := if c.end < lineEnd then c.end else lineEnd;
    if from < to || (|lines[k]| == 0 && c.start <= lineOffset && c.end > lineOffset) then
      [Range(from - lineOffset, to - lineOffset)]
    else []
  }

  lemma ClippedIsExact(lines: seq<string>, k: nat, c: Range)
    requires k < |lines|
    ensures
      var r := Clipped(lines, k, c);
      && (r != [] <==> Touches(lines, k, c))
      && (r != [] ==> IsColumns(r[0], lines[k]))
      && (forall i | 0 <= i < |lines[k]| :: (r != [] && In(r[0], i)) <==> InColumn(c, lines, k, i))
  {
    hide LineOffset;
    var r := Clipped(lines, k, c);
    if r != [] && lines[k] != "" {
      assert InColumn(c, lines, k, r[0].start);
    }
  }

  lemma OneMoreComment(lines: seq<string>, comments: seq<Range>, k: nat, ranges: seq<Range>, c: Range)
    requires k < |lines| && ColumnsOf(lines, comments, k, ranges)
    ensures ColumnsOf(lines, comments + [c], k, ranges + Clipped(lines, k, c))
  {
    TouchedBySnoc(lines, comments, k, c);
    ClippedIsExact(lines, k, c);
    hide Touched, Touches, Clipped, In, InColumn, Covered, ColumnCovered;
    var r := Clipped(lines, k, c);
    assert r == [] ==> ranges + r == ranges;
    forall i | 0 <= i < |lines[k]| ensures Covered(ranges + r, i) <==> ColumnCovered(comments + [c], lines, k, i) {
      ColumnBySnoc(lines, comments, k, i, c);
      if r != [] {
        CoveredBySnoc(ranges, r[0], i);
        assert ranges + r == ranges + [r[0]];
      }
    }
  }

  lemma ColumnBySnoc(lines: seq<string>, comments: seq<Range>, k: nat, i: int, c: Range)
    requires k < |lines|
    ensures ColumnCovered(comments + [c], lines, k, i)
            <==> ColumnCovered(comments, lines, k, i) || InColumn(c, lines, k, i)
  {
    CoveredBySnoc(comments, c, LineOffset(lines, k) + i);
  }

  /** The ranges of line k, which are kept under its number counted from 1. */
  function RangesOf(m: map<nat, seq<Range>>, k: nat): seq<Range> {
    if k + 1 in m then m[k + 1] else []
  }

  /** The column ranges by line number; a line no comment touches has none. */
  ghost predicate RangesBelow(lines: seq<string>, comments: seq<Range>, m: map<nat, seq<Range>>, n: nat)
    requires n <= |lines|
  {
    NumberedBelow(m, n) && ColumnsBelow(lines, comments, m, n)
  }

  ghost predicate NumberedBelow(m: map<nat, seq<Range>>, n: nat) {
    forall k | k in m :: 0 < k <= n && m[k] != []
  }

  ghost predicate ColumnsBelow(lines: seq<string>, comments: seq<Range>, m: map<nat, seq<Range>>, n: nat)
    requires n <= |lines|
  {
    forall k: nat | k < n :: ColumnsOf(lines, comments, k, RangesOf(m, k))
  }

  lemma SetRanges(lines: seq<string>, comments: seq<Range>, m: map<nat, seq<Range>>, k: nat, ranges: seq<Range>)
    requires k <= |lines| && ColumnsBelow(lines, comments, m, k) && NumberedBelow(m, k + 1) && ranges != []
    ensures
      var m' := m[k + 1 := ranges];
      RangesOf(m', k) == ranges && ColumnsBelow(lines, comments, m', k) && NumberedBelow(m', k + 1)
  {
    hide ColumnsOf;
    var m' := m[k + 1 := ranges];
    forall i: nat | i < k ensures ColumnsOf(lines, comments, i, RangesOf(m', i)) {
      assert RangesOf(m', i) == RangesOf(m, i);
    }
  }

  lemma LineBegun(lines: seq<string>, comments: seq<Range>, m: map<nat, seq<Range>>, k: nat)
    requires k < |lines| && RangesBelow(lines, comments, m, k)
    ensures ColumnsBelow(lines, comments, m, k) && NumberedBelow(m, k + 1)
    ensures ColumnsOf(lines, comments[..0], k, RangesOf(m, k))
  {
    NoComments(lines, k);
    assert comments[..0] == [] && RangesOf(m, k) == [];
  }

  lemma LineDone(lines: seq<string>, comments: seq<Range>, m: map<nat, seq<Range>>, k: nat)
    requires k < |lines| && ColumnsBelow(lines, comments, m, k) && NumberedBelow(m, k + 1)
    requires ColumnsOf(lines, comments, k, RangesOf(m, k))
    ensures RangesBelow(lines, comments, m, k + 1)
  {
    hide ColumnsOf, RangesOf;
  }

  lemma NoLines(lines: seq<string>, comments: seq<Range>)
    ensures RangesBelow(lines, comments, map[], 0) && LineOffset(lines, 0) == 0
  {}

  lemma NextOffset(lines: seq<string>, k: nat)
    requires k < |lines|
    ensures LineOffset(lines, k + 1) == LineOffset(lines, k) + |lines[k]| + 1
  {}

  lemma ClippedIs(lines: seq<string>, k: nat, c: Range)
    requires k < |lines|
    ensures
      var lineOffset := LineOffset(lines, k);
      var lineEnd := lineOffset + |lines[k]|;
      var from := if c.start > lineOffset then c.start else lineOffset;
      var to := if c.end < lineEnd then c.end else lineEnd;
      Clipped(lines, k, c) ==
      if from < to || (|lines[k]| == 0 && c.start <= lineOffset && c.end > lineOffset) then
        [Range(from - lineOffset, to - lineOffset)]
      else []
  {
    hide LineOffset;
  }

  lemma NoComments(lines: seq<string>, k: nat)
    requires k < |lines|
    ensures ColumnsOf(lines, [], k, [])
  {}

  method HtmlCommentRanges(lines: seq<string>, comments: seq<Range>) returns (ranges: map<nat, seq<Range>>)
    ensures RangesBelow(lines, comments, ranges, |lines|)
  {
    hide *;
    ranges := map[];
    var lineOffset := 0;
    NoLines(lines, comments);
    for k := 0 to |lines|
      invariant lineOffset == LineOffset(lines, k) && RangesBelow(lines, comments, ranges, k)
    {
      var raw := lines[k];
      var lineEnd := lineOffset + |raw|;
      LineBegun(lines, comments, ranges, k);
      for j := 0 to |comments|
        invariant ColumnsBelow(lines, comments, ranges, k) && NumberedBelow(ranges, k + 1)
        invariant ColumnsOf(lines, comments[..j], k, RangesOf(ranges, k))
      {
        var c := comments[j];
        var from := if c.start > lineOffset then c.start else lineOffset;
        var to := if c.end < lineEnd then c.end else lineEnd;
        var coversEmptyLine := |raw| == 0 && c.start <= lineOffset && c.end > lineOffset;
        var lineRanges := RangesOf(ranges, k);
        ClippedIs(lines, k, c);
        OneMoreComment(lines, comments[..j], k, lineRanges, c);
        assert comments[..j] + [c] == comments[..j + 1];
        if from < to || coversEmptyLine {
          lineRanges := lineRanges + [Range(from - lineOffset, to - lineOffset)];
          SetRanges(lines, comments, ranges, k, lineRanges);
          ranges := ranges[k + 1 := lineRanges];
        } else {
          assert lineRanges + [] == lineRanges;
        }
      }
      assert comments[..|comments|] == comments;
      LineDone(lines, comments, ranges, k);
      NextOffset(lines, k);
      lineOffset := lineEnd + 1;
    }
  }

  // ---- The sweep over one line -------------------------------------------------------------------------------------

  ghost predicate SortedByStart(ranges: seq<Range>) {
    forall i, j | 0 <= i < j < |ranges| :: ranges[i].start <= ranges[j].start
  }

  function InsertByStart(r: Range, sorted: seq<Range>): seq<Range>
    decreases sorted
  {
    if sorted == [] || r.start < sorted[0].start then [r] + sorted else [sorted[0]] + InsertByStart(r, sorted[1..])
  }

  /** A stable sort. */
  function SortByStart(ranges: seq<Range>): seq<Range>
    decreases ranges
  {
    if ranges == [] then []
    else InsertByStart(ranges[|ranges| - 1], SortByStart(ranges[..|ranges| - 1]))
  }

  lemma SortedCons(r: Range, rest: seq<Range>)
    requires SortedByStart(rest) && forall i | 0 <= i < |rest| :: r.start <= rest[i].start
    ensures SortedByStart([r] + rest)
  {}

  ghost predicate AllFrom(start: int, ranges: seq<Range>) {
    forall i | 0 <= i < |ranges| :: start <= ranges[i].start
  }

  lemma {:induction false} InsertKeepsSorted(r: Range, sorted: seq<Range>)
    requires SortedByStart(sorted)
    ensures SortedByStart(InsertByStart(r, sorted))
    ensures forall start: int | AllFrom(start, sorted) && start <= r.start :: AllFrom(start, InsertByStart(r, sorted))
    decreases sorted
  {
    if sorted == [] || r.start < sorted[0].start {
      SortedCons(r, sorted);
    } else {
      var rest := InsertByStart(r, sorted[1..]);
      assert AllFrom(sorted[0].start, sorted[1..]);
      InsertKeepsSorted(r, sorted[1..]);
      SortedCons(sorted[0], rest);
      forall start: int | AllFrom(start, sorted) && start <= r.start ensures AllFrom(start, [sorted[0]] + rest) {
        assert AllFrom(start, sorted[1..]);
      }
    }
  }

  lemma {:induction false} InsertKeepsMembers(r: Range, sorted: seq<Range>)
    ensures multiset(InsertByStart(r, sorted)) == multiset(sorted) + multiset{r}
    decreases sorted
  {
    if sorted != [] && r.start >= sorted[0].start {
      assert sorted == [sorted[0]] + sorted[1..];
      InsertKeepsMembers(r, sorted[1..]);
    }
  }

  lemma {:induction false} SortSorts(ranges: seq<Range>)
    ensures SortedByStart(SortByStart(ranges)) && multiset(SortByStart(ranges)) == multiset(ranges)
    decreases ranges
  {
    if ranges != [] {
      var n := |ranges| - 1;
      SortSorts(ranges[..n]);
      InsertKeepsSorted(ranges[n], SortByStart(ranges[..n]));
      InsertKeepsMembers(ranges[n], SortByStart(ranges[..n]));
      assert ranges == ranges[..n] + [ranges[n]];
    }
  }

  lemma CoveredBySame(a: seq<Range>, b: seq<Range>, o: int)
    requires multiset(a) == multiset(b)
    ensures Covered(a, o) ==> Covered(b, o)
  {
    if Covered(a, o) {
      var j :| 0 <= j < |a| && In(a[j], o);
      assert a[j] in multiset(b);
      var i :| 0 <= i < |b| && b[i] == a[j];
    }
  }

  /** The characters between two columns that no range covers. */
  ghost function Uncovered(raw: string, ranges: seq<Range>, lo: nat, hi: nat): string
    requires lo <= hi <= |raw|
    decreases hi - lo
  {
    if lo == hi then ""
    else (if Covered(ranges, lo) then "" else [raw[lo]]) + Uncovered(raw, ranges, lo + 1, hi)
  }

  lemma {:induction false} UncoveredJoins(raw: string, ranges: seq<Range>, lo: nat, mid: nat, hi: nat)
    requires lo <= mid <= hi <= |raw|
    ensures Uncovered(raw, ranges, lo, hi) == Uncovered(raw, ranges, lo, mid) + Uncovered(raw, ranges, mid, hi)
    decreases mid - lo
  {
    if lo < mid {
      UncoveredJoins(raw, ranges, lo + 1, mid, hi);
    }
  }

  lemma {:induction false} UncoveredGap(raw: string, ranges: seq<Range>, lo: nat, hi: nat)
    requires lo <= hi <= |raw| && forall o | lo <= o < hi :: !Covered(ranges, o)
    ensures Uncovered(raw, ranges, lo, hi) == raw[lo..hi]
    decreases hi - lo
  {
    if lo < hi {
      UncoveredGap(raw, ranges, lo + 1, hi);
      assert raw[lo..hi] == [raw[lo]] + raw[lo + 1..hi];
    }
  }

  lemma {:induction false} UncoveredNothing(raw: string, ranges: seq<Range>, lo: nat, hi: nat)
    requires lo <= hi <= |raw| && forall o | lo <= o < hi :: Covered(ranges, o)
    ensures Uncovered(raw, ranges, lo, hi) == ""
    decreases hi - lo
  {
    if lo < hi {
      UncoveredNothing(raw, ranges, lo + 1, hi);
    }
  }

  predicate IsBlankText(s: string) {
    forall i | 0 <= i < |s| :: IsSpace(s[i])
  }

  lemma {:induction false} BlankUncovered(raw: string, ranges: seq<Range>, lo: nat, hi: nat)
    requires lo <= hi <= |raw|
    ensures IsBlankText(Uncovered(raw, ranges, lo, hi))
            <==> forall i | lo <= i < hi :: IsSpace(raw[i]) || Covered(ranges, i)
    decreases hi - lo
  {
    if lo < hi {
      BlankUncovered(raw, ranges, lo + 1, hi);
      var rest := Uncovered(raw, ranges, lo + 1, hi);
      if !Covered(ranges, lo) {
        var all := Uncovered(raw, ranges, lo, hi);
        assert all == [raw[lo]] + rest;
        assert forall i | 0 <= i < |rest| :: rest[i] == all[i + 1];
        assert all[0] == raw[lo];
        BlankCons(raw[lo], rest);
      } else {
        assert Uncovered(raw, ranges, lo, hi) == rest;
      }
    }
  }

  lemma BlankCons(c: char, rest: string)
    ensures IsBlankText([c] + rest) <==> IsSpace(c) && IsBlankText(rest)
  {
    hide IsSpace;
    var all := [c] + rest;
    assert all[0] == c && forall i | 0 <= i < |rest| :: rest[i] == all[i + 1];
  }

  // ---- Keeping lines -----------------------------------------------------------------------------------------------

  ghost predicate AllColumns(ranges: seq<Range>, raw: string) {
    forall j | 0 <= j < |ranges| :: IsColumns(ranges[j], raw)
  }

  /** After the first j ranges the sweep stands behind them, and everything since the start of the last is covered. */
  ghost predicate SweptTo(ranges: seq<Range>, j: nat, cursor: nat)
    requires j <= |ranges|
  {
    && (forall i | 0 <= i < j :: ranges[i].end <= cursor)
    && (forall o | (if j == 0 then 0 else ranges[j - 1].start) <= o < cursor :: Covered(ranges, o))
  }

  lemma SweepOne(raw: string, ranges: seq<Range>, j: nat, cursor: nat)
    requires SortedByStart(ranges) && AllColumns(ranges, raw) && j < |ranges| && cursor <= |raw|
              && SweptTo(ranges, j, cursor)
    requires j > 0 ==> ranges[j - 1].start <= cursor
    ensures
      var (start, end) := (ranges[j].start, ranges[j].end);
      var next := if cursor > end then cursor else end;
      && 0 <= start <= end <= |raw|
      && SweptTo(ranges, j + 1, next) && start <= next
      && Uncovered(raw, ranges, cursor, next) == if cursor <= start then raw[cursor..start] else ""
  {
    var (start, end) := (ranges[j].start, ranges[j].end);
    var next := if cursor > end then cursor else end;
    forall o | start <= o < end ensures Covered(ranges, o) {
      assert In(ranges[j], o);
    }
    if cursor <= start {
      forall o | cursor <= o < start ensures !Covered(ranges, o) {
        forall i | 0 <= i < |ranges| ensures !In(ranges[i], o) {
          if i >= j {
            assert i > j ==> ranges[j].start <= ranges[i].start;
          }
        }
      }
      UncoveredJoins(raw, ranges, cursor, start, next);
      UncoveredGap(raw, ranges, cursor, start);
      UncoveredNothing(raw, ranges, start, next);
    } else {
      UncoveredNothing(raw, ranges, cursor, next);
    }
  }

  lemma SweptAll(raw: string, ranges: seq<Range>, cursor: nat)
    requires cursor <= |raw| && SweptTo(ranges, |ranges|, cursor)
    ensures Uncovered(raw, ranges, cursor, |raw|) == raw[cursor..]
  {
    forall o | cursor <= o < |raw| ensures !Covered(ranges, o) {
      forall i | 0 <= i < |ranges| ensures !In(ranges[i], o) {}
    }
    UncoveredGap(raw, ranges, cursor, |raw|);
    assert raw[cursor..|raw|] == raw[cursor..];
  }

  /** Whether some character is neither whitespace nor covered, whatever the order and the overlaps of the ranges. */
  method HasRenderedTextOutsideComments(raw: string, ranges: seq<Range>) returns (shown: bool)
    requires AllColumns(ranges, raw)
    ensures shown <==> ranges == [] || exists i | 0 <= i < |raw| :: !IsSpace(raw[i]) && !Covered(ranges, i)
  {
    hide *;
    if ranges == [] {
      return true;
    }
    var sorted := SortByStart(ranges);
    SortSorts(ranges);
    SortedColumns(ranges, sorted, raw);
    var cursor := 0;
    var visible := "";
    NothingSwept(raw, sorted);
    for j := 0 to |sorted|
      invariant 0 <= cursor <= |raw| && SweptTo(sorted, j, cursor) && (j > 0 ==> sorted[j - 1].start <= cursor)
      invariant visible == Uncovered(raw, sorted, 0, cursor)
    {
      SweepOne(raw, sorted, j, cursor);
      var start, end := sorted[j].start, sorted[j].end;
      var next := if cursor > end then cursor else end;
      UncoveredJoins(raw, sorted, 0, cursor, next);
      visible := visible + (if cursor <= start then raw[cursor..start] else "");
      cursor := next;
    }
    SweptAll(raw, sorted, cursor);
    UncoveredJoins(raw, sorted, 0, cursor, |raw|);
    visible := visible + raw[cursor..];
    BlankUncovered(raw, sorted, 0, |raw|);
    forall i ensures Covered(sorted, i) <==> Covered(ranges, i) {
      CoveredBySame(sorted, ranges, i);
      CoveredBySame(ranges, sorted, i);
    }
    shown := !IsBlankText(visible);
  }

  lemma NothingSwept(raw: string, ranges: seq<Range>)
    ensures SweptTo(ranges, 0, 0) && Uncovered(raw, ranges, 0, 0) == ""
  {}

  lemma SortedColumns(ranges: seq<Range>, sorted: seq<Range>, raw: string)
    requires AllColumns(ranges, raw) && multiset(sorted) == multiset(ranges)
    ensures AllColumns(sorted, raw)
  {
    forall j | 0 <= j < |sorted| ensures IsColumns(sorted[j], raw) {
      assert sorted[j] in multiset(ranges);
      var i :| 0 <= i < |ranges| && ranges[i] == sorted[j];
    }
  }

  /** The numbers of the lines in code blocks. */
  method FencedLines(blocks: seq<Block>) returns (fenced: set<int>)
    ensures forall line :: line in fenced <==> InCode(blocks, line)
  {
    fenced := {};
    for j := 0 to |blocks|
      invariant forall line :: line in fenced <==> InCode(blocks[..j], line)
    {
      ghost var before := fenced;
      var line := blocks[j].first;
      while line <= blocks[j].last
        invariant line >= blocks[j].first
        invariant line <= blocks[j].last + 1 || line == blocks[j].first
        invariant forall l :: l in fenced <==> l in before || blocks[j].first <= l < line
        decreases blocks[j].last - line
      {
        fenced := fenced + {line};
        line := line + 1;
      }
      forall l ensures InCode(blocks[..j + 1], l)
          <==> InCode(blocks[..j], l) || blocks[j].first <= l <= blocks[j].last {
        InCodeOneMore(blocks, j, l);
      }
    }
    assert blocks[..|blocks|] == blocks;
  }

  lemma InCodeOneMore(blocks: seq<Block>, j: nat, l: int)
    requires j < |blocks|
    ensures InCode(blocks[..j + 1], l) <==> InCode(blocks[..j], l) || blocks[j].first <= l <= blocks[j].last
  {
    var more := blocks[..j + 1];
    assert more[j] == blocks[j];
    if InCode(blocks[..j], l) {
      var i :| 0 <= i < j && blocks[..j][i].first <= l <= blocks[..j][i].last;
      assert more[i] == blocks[i];
    }
  }

  lemma ShownIsShown(lines: seq<string>, comments: seq<Range>, k: nat, ranges: seq<Range>)
    requires k < |lines| && ColumnsOf(lines, comments, k, ranges)
    ensures AllColumns(ranges, lines[k])
    ensures (ranges == [] || exists i | 0 <= i < |lines[k]| :: !IsSpace(lines[k][i]) && !Covered(ranges, i))
            <==> (Touched(lines, comments, k) ==> ShowsText(lines, comments, k))
  {
    hide Touched, Covered, ColumnCovered, IsSpace;
  }

  /**
   The prose lines, in order. A line outside code is dropped exactly when a comment touches it and every character of
   it lies in a comment or is whitespace; so an empty line inside a comment is dropped, and a blank line elsewhere kept.
   */
  method MarkdownProseLines(source: string, nodes: seq<Html>, blocks: seq<Block>) returns (kept: seq<ProseLine>)
    ensures kept == ProseOf(LinesOf(source), CommentsOf(nodes), blocks, |LinesOf(source)|)
  {
    hide Touched, ShowsText, ColumnsOf, InCode, AllColumns, Covered, IsSpace;
    var rawLines := LinesOf(source);
    var comments := HtmlComments(nodes);
    var ranges := HtmlCommentRanges(rawLines, comments);
    var fenced := FencedLines(blocks);
    kept := [];
    for k := 0 to |rawLines|
      invariant kept == ProseOf(rawLines, comments, blocks, k)
    {
      if k + 1 !in fenced {
        ShownIsShown(rawLines, comments, k, RangesOf(ranges, k));
        var shown := HasRenderedTextOutsideComments(rawLines[k], RangesOf(ranges, k));
        if shown {
          kept := kept + [ProseLine(k + 1, rawLines[k])];
        }
      }
    }
  }

  /**
   The same in terms of the source: a line outside code is dropped when a comment touches it and nothing else shows.
   */
  lemma DroppedExactlyWhenCovered(source: string, comments: seq<Range>, blocks: seq<Block>, k: nat)
    requires k < |LinesOf(source)| && !InCode(blocks, k + 1)
    ensures
      var lines := LinesOf(source);
      var from := LineOffset(lines, k);
      var to := from + |lines[k]|;
      && to <= |source|
      && (!Kept(lines, comments, blocks, k) <==>
            && Touched(lines, comments, k)
            && forall o | from <= o < to :: IsSpace(source[o]) || Covered(comments, o))
  {
    hide LinesOf, LineOffset, Touched, Covered, InCode, IsSpace;
    var lines := LinesOf(source);
    var from := LineOffset(lines, k);
    LinesAreSlices(source, k);
    var to := from + |lines[k]|;
    assert forall i | 0 <= i < |lines[k]| :: lines[k][i] == source[from..to][i] == source[from + i];
    if ShowsText(lines, comments, k) {
      var i :| 0 <= i < |lines[k]| && !IsSpace(lines[k][i]) && !ColumnCovered(comments, lines, k, i);
      assert !IsSpace(source[from + i]) && !Covered(comments, from + i);
    } else {
      forall o | from <= o < to ensures IsSpace(source[o]) || Covered(comments, o) {
        var i := o - from;
        assert lines[k][i] == source[o];
        assert IsSpace(lines[k][i]) || ColumnCovered(comments, lines, k, i);
      }
    }
  }

  lemma {:induction false} ProseIs(lines: seq<string>, comments: seq<Range>, blocks: seq<Block>, n: nat,
      line: ProseLine)
    requires n <= |lines|
    ensures line in ProseOf(lines, comments, blocks, n) <==>
            1 <= line.index <= n && line.raw == lines[line.index - 1] && Kept(lines, comments, blocks, line.index - 1)
    ensures forall i, j | 0 <= i < j < |ProseOf(lines, comments, blocks, n)| ::
              ProseOf(lines, comments, blocks, n)[i].index < ProseOf(lines, comments, blocks, n)[j].index
    decreases n
  {
    if n > 0 {
      hide Kept;
      var front := ProseOf(lines, comments, blocks, n - 1);
      ProseIs(lines, comments, blocks, n - 1, line);
      forall i | 0 <= i < |front| ensures front[i].index < n {
        assert front[i] in front;
        ProseIs(lines, comments, blocks, n - 1, front[i]);
      }
    }
  }

  /** Some comment covers an offset of the line, or the place of an empty one. */
  ghost predicate ReachedInto(comments: seq<Range>, from: int, to: int) {
    exists j, o | 0 <= j < |comments| :: OnLine(from, to, o) && In(comments[j], o)
  }

  predicate OnLine(from: int, to: int, o: int) {
    from <= o && (o < to || o == from == to)
  }

  /**
   Which lines of a source are prose, in numbers from 1 and in order: those in no block of code, save where a comment
   reaches in and every character is whitespace or lies in a comment.
   */
  lemma ProseLinesExactly(source: string, comments: seq<Range>, blocks: seq<Block>, line: ProseLine)
    ensures
      var lines := LinesOf(source);
      var kept := ProseOf(lines, comments, blocks, |lines|);
      && (line in kept <==>
            && 1 <= line.index <= |lines| && line.raw == lines[line.index - 1]
            && (forall j | 0 <= j < |blocks| :: line.index < blocks[j].first || blocks[j].last < line.index)
            && var from := LineOffset(lines, line.index - 1);
               var to := from + |line.raw|;
               && to <= |source|
               && !(ReachedInto(comments, from, to)
                    && forall o | from <= o < to :: IsSpace(source[o]) || Covered(comments, o)))
      && forall i, j | 0 <= i < j < |kept| :: kept[i].index < kept[j].index
  {
    hide LinesOf, LineOffset, Covered, IsSpace, Touched, ReachedInto, ProseOf;
    var lines := LinesOf(source);
    ProseIs(lines, comments, blocks, |lines|, line);
    if 1 <= line.index <= |lines| {
      var k := line.index - 1;
      TouchedIs(lines, comments, k);
      LinesAreSlices(source, k);
      if !InCode(blocks, k + 1) {
        DroppedExactlyWhenCovered(source, comments, blocks, k);
      }
    }
  }

  lemma TouchedIs(lines: seq<string>, comments: seq<Range>, k: nat)
    requires k < |lines|
    ensures
      var from := LineOffset(lines, k);
      Touched(lines, comments, k) <==> ReachedInto(comments, from, from + |lines[k]|)
  {
    hide LineOffset;
    var from := LineOffset(lines, k);
    if j :| 0 <= j < |comments| && Touches(lines, k, comments[j]) {
      if i :| 0 <= i < |lines[k]| && InColumn(comments[j], lines, k, i) {
        assert In(comments[j], from + i);
      } else {
        assert In(comments[j], from);
      }
    }
    if j, o :| 0 <= j < |comments| && OnLine(from, from + |lines[k]|, o) && In(comments[j], o) {
      assert InColumn(comments[j], lines, k, o - from);
      assert Touches(lines, k, comments[j]);
    }
  }

  /** An empty line inside a comment is dropped, an empty line no comment reaches is kept. */
  lemma EmptyLines(lines: seq<string>, comments: seq<Range>, blocks: seq<Block>, k: nat)
    requires k < |lines| && lines[k] == "" && !InCode(blocks, k + 1)
    ensures Kept(lines, comments, blocks, k) <==> !Covered(comments, LineOffset(lines, k))
  {
    hide LineOffset, InCode;
    var from := LineOffset(lines, k);
    assert forall c :: Touches(lines, k, c) <==> In(c, from);
    if j :| 0 <= j < |comments| && In(comments[j], from) {
      assert Touches(lines, k, comments[j]);
    }
  }

  // ---- Where the text of a node stands in the source ---------------------------------------------------------------

  /**
   at[i] is the place in the source of the i-th character of the node: parsing strips container prefixes and reorders
   nothing, so the places rise, and the first is the offset of the node.
   */
  ghost predicate Placed(source: string, node: Html, at: seq<nat>) {
    && |at| == |node.value|
    && (forall i | 0 <= i < |at| :: at[i] < |source| && source[at[i]] == node.value[i])
    && (forall i, j | 0 <= i < j < |at| :: at[i] < at[j])
    && (at != [] ==> at[0] == node.offset)
  }

  /** Nothing is stripped in front of the n-th character. */
  ghost predicate Unstripped(node: Html, at: seq<nat>, n: int) {
    n <= |at| && forall i | 0 <= i < n :: at[i] == node.offset + i
  }

  /** Where a comment of the node stands in the source. */
  ghost function PlaceOf(at: seq<nat>, r: Range): Range
    requires 0 <= r.start < r.end <= |at|
  {
    Range(at[r.start], at[r.end - 1] + 1)
  }

  lemma {:induction false} PlacesSpread(at: seq<nat>, i: nat, j: nat)
    requires i <= j < |at| && forall i, j | 0 <= i < j < |at| :: at[i] < at[j]
    ensures at[j] - at[i] >= j - i
    decreases j - i
  {
    if i < j {
      PlacesSpread(at, i, j - 1);
    }
  }

  lemma UnstrippedIsSlice(source: string, node: Html, at: seq<nat>, n: nat)
    requires Placed(source, node, at) && 0 < n && Unstripped(node, at, n)
    ensures Verbatim(source, node, n)
  {
    assert at[n - 1] == node.offset + n - 1;
    var slice := source[node.offset..node.offset + n];
    assert forall i | 0 <= i < n :: slice[i] == source[at[i]] == node.value[i];
  }

  /**
   The range computed for a comment is the place of the comment in the source if and only if nothing is stripped from
   the node in front of the comment's end; and then it holds a comment of the source.
   */
  lemma RangeIsRightExactlyWhenUnstripped(source: string, node: Html, at: seq<nat>, j: nat)
    requires Placed(source, node, at) && j < |CommentsFrom(node.value, 0)|
    ensures
      var r, computed := CommentsFrom(node.value, 0)[j], Shifted(CommentsFrom(node.value, 0), node.offset)[j];
      && 0 <= r.start < r.end <= |at|
      && (computed == PlaceOf(at, r) <==> Unstripped(node, at, r.end))
      && (computed == PlaceOf(at, r) ==> IsSourceComment(source, node.offset + |node.value|, computed))
  {
    hide *;
    var found := CommentsFrom(node.value, 0);
    CommentAt(node.value, j);
    ShiftedAt(found, node.offset, j);
    RangeIsPlaceExactlyWhenUnstripped(source, node, at, found[j]);
  }

  lemma CommentAt(value: string, j: nat)
    requires j < |CommentsFrom(value, 0)|
    ensures IsComment(value, CommentsFrom(value, 0)[j])
  {
    CommentsAreExact(value, 0);
    hide CommentsFrom, IsComment, InOrder;
  }

  lemma ShiftedAt(ranges: seq<Range>, by_: int, j: nat)
    requires j < |ranges|
    ensures |Shifted(ranges, by_)| == |ranges|
    ensures Shifted(ranges, by_)[j] == Range(ranges[j].start + by_, ranges[j].end + by_)
  {}

  lemma RangeIsPlaceExactlyWhenUnstripped(source: string, node: Html, at: seq<nat>, r: Range)
    requires Placed(source, node, at) && IsComment(node.value, r)
    ensures 0 <= r.start < r.end <= |at|
    ensures
      var computed := Range(r.start + node.offset, r.end + node.offset);
      && (computed == PlaceOf(at, r) <==> Unstripped(node, at, r.end))
      && (computed == PlaceOf(at, r) ==> IsSourceComment(source, node.offset + |node.value|, computed))
  {
    hide IsSourceComment, StartsAt, Verbatim;
    if at[r.end - 1] == node.offset + r.end - 1 {
      forall i | 0 <= i < r.end ensures at[i] == node.offset + i {
        PlacesSpread(at, 0, i);
        PlacesSpread(at, i, r.end - 1);
      }
    }
    if Unstripped(node, at, r.end) {
      UnstrippedIsSlice(source, node, at, r.end);
      ShiftedIsSourceComment(source, node, r);
    }
  }

  /** The first n characters of the node are the source from its offset on. */
  predicate Verbatim(source: string, node: Html, n: nat) {
    n <= |node.value| && node.offset + n <= |source| && source[node.offset..node.offset + n] == node.value[..n]
  }

  lemma MarksOfSlice(source: string, node: Html, n: nat, i: nat, mark: string)
    requires Verbatim(source, node, n) && i + |mark| <= n
    ensures StartsAt(source, node.offset + i, mark) == StartsAt(node.value, i, mark)
  {
    SliceOfSlice(source, node.offset, node.offset + n, i, i + |mark|);
    SliceOfSlice(node.value, 0, n, i, i + |mark|);
  }

  /** As IsComment, of the source, for a comment that has to end within a limit. */
  ghost predicate IsSourceComment(source: string, limit: nat, r: Range) {
    && 0 <= r.start && r.start + |OPEN| <= r.end <= limit && StartsAt(source, r.start, OPEN)
    && (forall k | r.start + |OPEN| <= k < r.end - |CLOSE| :: !StartsAt(source, k, CLOSE))
    && (r.end == limit || (r.end - |CLOSE| >= r.start + |OPEN| && StartsAt(source, r.end - |CLOSE|, CLOSE)))
  }

  /** For a node from which nothing is stripped no comment opens outside the ranges either. */
  lemma UnstrippedNodesAreCovered(source: string, node: Html)
    requires Verbatim(source, node, |node.value|)
    ensures
      var rs, limit := Shifted(CommentsFrom(node.value, 0), node.offset), node.offset + |node.value|;
      && (forall j | 0 <= j < |rs| :: IsSourceComment(source, limit, rs[j]))
      && (forall o: nat | node.offset <= o && o + |OPEN| <= limit && StartsAt(source, o, OPEN) :: Covered(rs, o))
  {
    hide CommentsFrom, StartsAt, IsComment, IsSourceComment, Covered, InOrder, Verbatim;
    var n := |node.value|;
    var found, limit := CommentsFrom(node.value, 0), node.offset + n;
    var rs := Shifted(found, node.offset);
    CommentsAreExact(node.value, 0);
    forall j | 0 <= j < |rs| ensures IsSourceComment(source, limit, rs[j]) {
      VerbatimToTheEnd(source, node, found[j]);
      ShiftedIsSourceComment(source, node, found[j]);
    }
    forall o: nat | node.offset <= o && o + |OPEN| <= limit && StartsAt(source, o, OPEN) ensures Covered(rs, o) {
      MarksOfSlice(source, node, n, o - node.offset, OPEN);
      CoveredByShifted(found, node.offset, o);
    }
  }

  lemma VerbatimToTheEnd(source: string, node: Html, r: Range)
    requires Verbatim(source, node, |node.value|) && IsComment(node.value, r)
    ensures 0 <= r.end && Verbatim(source, node, r.end)
  {
    hide StartsAt;
    var whole := source[node.offset..node.offset + |node.value|];
    assert whole[..r.end] == source[node.offset..node.offset + r.end];
  }

  lemma CoveredByShifted(ranges: seq<Range>, by_: int, o: int)
    requires Covered(ranges, o - by_)
    ensures Covered(Shifted(ranges, by_), o)
  {
    var j :| 0 <= j < |ranges| && In(ranges[j], o - by_);
    assert In(Shifted(ranges, by_)[j], o);
  }

  lemma ShiftedIsSourceComment(source: string, node: Html, r: Range)
    requires IsComment(node.value, r) && Verbatim(source, node, r.end)
    ensures IsSourceComment(source, node.offset + |node.value|, Range(r.start + node.offset, r.end + node.offset))
  {
    hide StartsAt, Verbatim;
    MarksOfSlice(source, node, r.end, r.start, OPEN);
    forall k: int | r.start + node.offset + |OPEN| <= k < r.end + node.offset - |CLOSE|
        ensures !StartsAt(source, k, CLOSE) {
      MarksOfSlice(source, node, r.end, k - node.offset, CLOSE);
    }
    if r.end != |node.value| {
      MarksOfSlice(source, node, r.end, r.end - |CLOSE|, CLOSE);
    }
  }

  /** A comment in a block quote: the parsed node lacks the quote mark of its second line. */
  const QUOTED := "> <!-- a\n> b -->"

  const QUOTED_NODE := Html(2, "<!-- a\nb -->")

  lemma QuotedLines()
    ensures LinesOf(QUOTED) == ["> <!-- a", "> b -->"] && LineOffset(LinesOf(QUOTED), 1) == 9
  {
    var lines := ["> <!-- a", "> b -->"];
    assert Without(lines[0], '\n') && Without(lines[1], '\n');
    JoinWithCons(lines[0], [lines[1]], "\n");
    assert [lines[0]] + [lines[1]] == lines;
    assert JoinWith(lines, "\n") == QUOTED;
    SplitOfJoinWith(lines, '\n');
    assert LineOffset(lines, 0) == 0 && LineOffset(lines, 1) == 9;
  }

  lemma QuotedComments()
    ensures CommentsOf([QUOTED_NODE]) == [Range(2, 14)]
  {
    var value := QUOTED_NODE.value;
    assert |value| == 12 && value[0..4] == OPEN && value[9..12] == CLOSE;
    assert value[4..7][0] == ' ' && value[5..8][0] == 'a' && value[6..9][0] == '\n' && value[7..10][0] == 'b';
    assert value[8..11][0] == ' ';
    assert IndexFrom(value, 0, OPEN).value == 0;
    assert IndexFrom(value, 4, CLOSE).value == 9;
    assert CommentsFrom(value, 12) == [];
    assert CommentsFrom(value, 0) == [Range(0, 12)];
    assert [QUOTED_NODE][..0] == [] && CommentsOf([]) == [];
  }

  /**
   Such a node is not a slice of the source, and the offsets computed from it end too early: the second line is kept,
   although with the comment's own offsets it is dropped.
   */
  lemma StrippedPrefixIsMisplaced()
    ensures !Verbatim(QUOTED, QUOTED_NODE, |QUOTED_NODE.value|)
    ensures IsSourceComment(QUOTED, |QUOTED|, Range(2, 16))
    ensures
      var lines := LinesOf(QUOTED);
      |lines| == 2 && Kept(lines, CommentsOf([QUOTED_NODE]), [], 1) && !Kept(lines, [Range(2, 16)], [], 1)
  {
    QuotedLines();
    QuotedComments();
    StrippedNodeDiffers();
    hide LinesOf, CommentsOf, LineOffset, QUOTED, QUOTED_NODE, IsSourceComment, Verbatim;
    var lines := LinesOf(QUOTED);
    assert lines[1][5] == '-' && !ColumnCovered([Range(2, 14)], lines, 1, 5);
    assert ShowsText(lines, [Range(2, 14)], 1);
    assert InColumn([Range(2, 16)][0], lines, 1, 0);
    assert Touched(lines, [Range(2, 16)], 1);
    forall i | 0 <= i < |lines[1]| ensures ColumnCovered([Range(2, 16)], lines, 1, i) {
      assert In([Range(2, 16)][0], 9 + i);
    }
  }

  lemma StrippedNodeDiffers()
    ensures !Verbatim(QUOTED, QUOTED_NODE, |QUOTED_NODE.value|) && IsSourceComment(QUOTED, |QUOTED|, Range(2, 16))
  {
    assert |QUOTED| == 16 && QUOTED[2..14][7] == '>' && QUOTED_NODE.value[7] == 'b';
    assert QUOTED[2..6] == OPEN && QUOTED[13..16] == CLOSE;
    assert QUOTED[6..9][0] == ' ' && QUOTED[7..10][0] == 'a' && QUOTED[8..11][0] == '\n' && QUOTED[9..12][0] == '>';
    assert QUOTED[10..13][0] == ' ' && QUOTED[11..14][0] == 'b' && QUOTED[12..15][0] == ' ';
  }
}
