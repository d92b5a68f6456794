/** The source line and caret of an error message (src/ascii-parser-entry.cc,
    GetSourceLineAtCursor and FormatCursorDiagnostic). */
module Diagnostics {
  import opened Decimals

  // ----- the lines of a text -------------------------------------------------------------------

  /** The lines of `t`, the first of which starts with `line`.  Carriage returns are dropped. */
  function Lines(t: string, line: string): (ls: seq<string>)
    ensures ls != []
    decreases |t|
  {
    if t == "" then [line]
    else if t[0] == '\r' then Lines(t[1..], line)
    else if t[0] == '\n' then [line] + Lines(t[1..], "")
    else Lines(t[1..], line + [t[0]])
  }

  function LineAt(ls: seq<string>, row: int): string {
    if 0 <= row < |ls| then ls[row] else ""
  }

  function WithoutReturns(t: string): string {
    if t == "" then "" else (if t[0] == '\r' then "" else [t[0]]) + WithoutReturns(t[1..])
  }

  function JoinLines(ls: seq<string>): string
    requires ls != []
  {
    if |ls| == 1 then ls[0] else ls[0] + "\n" + JoinLines(ls[1..])
  }

  predicate IsLine(line: string) {
    '\r' !in line && '\n' !in line
  }

  /** The lines are the text without carriage returns, cut at all its line feeds. */
  lemma {:induction false} LinesJoined(t: string, line: string)
    requires IsLine(line)
    ensures JoinLines(Lines(t, line)) == line + WithoutReturns(t)
    ensures forall i :: 0 <= i < |Lines(t, line)| ==> IsLine(Lines(t, line)[i])
    decreases |t|
  {
    if t == "" {
      assert line + "" == line;
    } else if t[0] == '\r' {
      LinesJoined(t[1..], line);
      assert "" + WithoutReturns(t[1..]) == WithoutReturns(t[1..]);
    } else if t[0] == '\n' {
      LinesJoined(t[1..], "");
      assert "" + WithoutReturns(t[1..]) == WithoutReturns(t[1..]);
      assert ([line] + Lines(t[1..], ""))[1..] == Lines(t[1..], "");
      assert line + "\n" + WithoutReturns(t[1..]) == line + ("\n" + WithoutReturns(t[1..]));
    } else {
      LinesJoined(t[1..], line + [t[0]]);
      assert (line + [t[0]]) + WithoutReturns(t[1..]) == line + ([t[0]] + WithoutReturns(t[1..]));
    }
  }

  /** GetSourceLineAtCursor: the line of that number, and nothing for a row that is not there. */
  method SourceLine(text: string, row: int) returns (line: string)
    ensures line == LineAt(Lines(text, ""), row)
  {
    line := "";
    if row < 0 { return; }
    var at := 0;
    var i := 0;
    ghost var cut: string := "";  // the line so far, wanted or not
    assert text[0..] == text;
    while i < |text|
      invariant 0 <= i <= |text| && 0 <= at <= row
      invariant LineAt(Lines(text, ""), row) == LineAt(Lines(text[i..], cut), row - at)
      invariant line == if at == row then cut else ""
    {
      var ch := text[i];
      assert text[i..][1..] == text[i + 1..];
      i := i + 1;
      if ch == '\r' { continue; }
      if ch == '\n' {
        if at == row { return; }
        at, line, cut := at + 1, "", "";
        continue;
      }
      cut := cut + [ch];
      if at == row {
        line := line + [ch];
      }
    }
    assert text[i..] == "";
    if at != row {
      line := "";
    }
  }

  // ----- clipping ---------------------------------------------------------------------------------

  datatype Diagnostic = NoPosition | HeaderOnly | Clip(line: string, caret: nat)

  const MIN_WIDTH := 16
  const DOTS := "..."

  function Wide(width: int): int { if width < MIN_WIDTH then MIN_WIDTH else width }

  /** Where the window of `w` columns starts: half a window before the column, but not so far
      right that it would pass the end of the line. */
  function WindowStart(size: nat, col: nat, w: nat): (start: nat)
    requires w <= size
  {
    if col < w / 2 then 0 else if col - w / 2 > size - w then size - w else col - w / 2
  }

  /** The columns [start, start + w) of the line, with dots where something is cut off. */
  function Window(line: string, start: nat, w: nat): string
    requires start + w <= |line|
  {
    (if start > 0 then DOTS else "") + line[start..start + w] + if start + w < |line| then DOTS else ""
  }

  /** The window shows at the caret the character of the column. */
  lemma CaretUnderColumn(line: string, col: nat, w: nat)
    requires MIN_WIDTH <= w < |line|
    ensures var start := WindowStart(|line|, col, w); var caret := col - start + if start > 0 then |DOTS| else 0;
      && caret >= 0 && |Window(line, start, w)| <= w + 2 * |DOTS|
      && (col < |line| ==> caret < |Window(line, start, w)| && Window(line, start, w)[caret] == line[col])
  {
  }

  /** The part of a line that is wider than `w` around the column. */
  method ClipLine(source: string, col: nat, w: nat) returns (display: string, caret: nat)
    requires MIN_WIDTH <= w < |source|
    ensures var start := WindowStart(|source|, col, w);
      display == Window(source, start, w) && caret == col - start + if start > 0 then |DOTS| else 0
  {
    var half := w / 2;
    var startCol := if col - half > 0 then col - half else 0;
    var endCol := if |source| < startCol + w then |source| else startCol + w;
    if endCol - startCol < w {
      startCol := if endCol - w > 0 then endCol - w else 0;
    }
    assert startCol == WindowStart(|source|, col, w) && endCol == startCol + w;
    display := source[startCol..endCol];
    caret := col - startCol;
    if startCol > 0 {
      display := DOTS + display;
      caret := caret + 3;
    }
    if endCol < |source| {
      display := display + DOTS;
    }
  }

  /** What is shown of the line, and where the caret stands. */
  function Located(text: string, row: int, col: int, width: int): (d: Diagnostic)
    ensures d == NoPosition <==> row < 0 || col < 0
    ensures d.Clip? ==> |d.line| <= Wide(width) + 2 * |DOTS|
  {
    if row < 0 || col < 0 then NoPosition
    else
      var line, w := LineAt(Lines(text, ""), row), Wide(width);
      if line == "" then HeaderOnly
      else if |line| <= w then Clip(line, col)
      else
        var start := WindowStart(|line|, col, w);
        assert col - start >= 0;
        Clip(Window(line, start, w), col - start + if start > 0 then |DOTS| else 0)
  }

  /** The caret stands under the character of the column. */
  lemma LocatedColumn(text: string, row: int, col: int, width: int)
    ensures var d := Located(text, row, col, width); var line := LineAt(Lines(text, ""), row);
      d.Clip? && col < |line| ==> d.caret < |d.line| && d.line[d.caret] == line[col]
  {
    hide Window, WindowStart, Lines, LineAt;
    var line := LineAt(Lines(text, ""), row);
    if row >= 0 && col >= 0 && Wide(width) < |line| {
      CaretUnderColumn(line, col, Wide(width));
    }
  }

  // ----- the message --------------------------------------------------------------------------------

  const MARGIN := "  > "

  function Header(row: nat, col: nat): string {
    "Semantic source at line " + Decimal(row + 1) + ", column " + Decimal(col + 1) + ":"
  }

  function Blanks(n: nat): string { seq(n, i => ' ') }

  function Message(row: int, col: int, d: Diagnostic): string {
    if row < 0 || col < 0 then ""
    else
      match d
      case Clip(line, caret) => Header(row, col) + "\n" + MARGIN + line + "\n" + Blanks(|MARGIN|) + Blanks(caret) + "^"
      case _ => Header(row, col)
  }

  /** FormatCursorDiagnostic */
  method FormatCursor(text: string, row: int, col: int, width: int) returns (message: string)
    ensures message == Message(row, col, Located(text, row, col, width))
  {
    hide Window, WindowStart, Lines, LineAt, Header;
    if row < 0 || col < 0 {
      return "";
    }
    var columnWidth := if width < 16 then 16 else width;
    message := Header(row, col);
    var source := SourceLine(text, row);
    if source == "" { return; }
    var display, caret := source, col;
    if |source| > columnWidth {
      display, caret := ClipLine(source, col, columnWidth);
    }
    assert Located(text, row, col, width) == Clip(display, caret);
    message := message + "\n" + MARGIN + display + "\n" + "    ";
    ghost var start := message;
    var i := 0;
    while i < caret
      invariant 0 <= i <= caret && message == start + Blanks(i)
    {
      message := message + " ";
      i := i + 1;
    }
    assert "    " == Blanks(|MARGIN|);
    message := message + "^";
  }

  /** The last two lines of a message with a source line: the caret, and nothing but blanks
      before it, stands under the character of the column. */
  lemma CaretInMessage(text: string, row: int, col: int, width: int)
    requires Located(text, row, col, width).Clip?
    ensures var d := Located(text, row, col, width); var line := LineAt(Lines(text, ""), row);
      var shown, under := MARGIN + d.line, Blanks(|MARGIN| + d.caret) + "^";
      && Message(row, col, d) == Header(row, col) + "\n" + shown + "\n" + under
      && (col < |line| ==> |under| <= |shown| && shown[|under| - 1] == line[col])
  {
    hide Window, WindowStart, Lines, LineAt, Header;
    LocatedColumn(text, row, col, width);
    var d := Located(text, row, col, width);
    assert Blanks(|MARGIN| + d.caret) == Blanks(|MARGIN|) + Blanks(d.caret);
  }

  // ----- the message, written out ---------------------------------------------------------------------

  /** `shown` holds the columns [start, start + w) of `line` in their order, with three dots on
      each side where columns are left out; what is shown starts at `lead` in it. */
  ghost predicate ShowsWindow(shown: string, line: string, start: nat, w: nat, lead: nat) {
    && start + w <= |line| && lead == (if start > 0 then 3 else 0)
    && |shown| == lead + w + (if start + w < |line| then 3 else 0)
    && shown[lead..lead + w] == line[start..start + w]
    && forall i :: 0 <= i < |shown| ==> i < lead || lead + w <= i ==> shown[i] == '.'
  }

  /** A line of at most 16 columns, or at most `width`, is shown whole.  Of a longer one the larger
      of these two numbers of columns is shown, from as near as the line allows to half of them
      before the column.  The caret stands at the column, counted in what is shown. */
  ghost predicate Shows(shown: string, caret: nat, line: string, col: nat, width: int) {
    var w := if width > 16 then width else 16;
    if |line| <= w then shown == line && caret == col else ShowsPart(shown, caret, line, col, w)
  }

  ghost predicate ShowsPart(shown: string, caret: nat, line: string, col: nat, w: nat) {
    exists start: nat, lead: nat ::
      && ShowsWindow(shown, line, start, w, lead) && Nearest(start, col - w / 2, |line| - w)
      && caret == lead + col - start
  }

  /** Of the numbers from 0 to `last`, `start` is the nearest to `aim`. */
  ghost predicate Nearest(start: int, aim: int, last: int) {
    0 <= start <= last && forall other :: 0 <= other <= last ==> Distance(start, aim) <= Distance(other, aim)
  }

  function Distance(a: int, b: int): nat { if a < b then b - a else a - b }

  lemma WindowShown(line: string, col: nat, w: nat)
    requires MIN_WIDTH <= w < |line|
    ensures var start := WindowStart(|line|, col, w);
      && ShowsWindow(Window(line, start, w), line, start, w, if start > 0 then 3 else 0)
      && Nearest(start, col - w / 2, |line| - w)
  {
  }

  lemma ClipShown(line: string, col: nat, width: int)
    requires |line| > Wide(width)
    ensures var start := WindowStart(|line|, col, Wide(width)); var lead := if start > 0 then |DOTS| else 0;
      col - start + lead >= 0 && Shows(Window(line, start, Wide(width)), col - start + lead, line, col, width)
  {
    hide Window, ShowsWindow, Nearest;
    var w := Wide(width);
    WindowShown(line, col, w);
    var start := WindowStart(|line|, col, w);
    var lead: nat := if start > 0 then 3 else 0;
    assert |DOTS| == 3 && col - start + lead >= 0;
    var caret: nat := lead + col - start;
    assert ShowsWindow(Window(line, start, w), line, start, w, lead) && Nearest(start, col - w / 2, |line| - w);
    assert ShowsPart(Window(line, start, w), caret, line, col, w);
  }

  lemma ShownWhole(line: string, col: nat, width: int)
    requires |line| <= Wide(width)
    ensures Shows(line, col, line, col, width)
  {
  }

  /** The whole message: none for a negative row or column.  Otherwise first their numbers, counted
      from 1, then what is shown of the line and the caret, unless the line is empty or there is
      none. */
  lemma MessageExactly(text: string, row: int, col: int, width: int)
      returns (line: string, number: string, column: string, shown: string, caret: nat)
    ensures var ls := Lines(text, ""); line == if 0 <= row < |ls| then ls[row] else ""
    ensures row >= 0 && col >= 0 ==>
      && AllDigits(number) && Number(number) == row + 1 && AllDigits(column) && Number(column) == col + 1
      && (line != "" ==> Shows(shown, caret, line, col, width))
    ensures Message(row, col, Located(text, row, col, width)) ==
      if row < 0 || col < 0 then ""
      else "Semantic source at line " + number + ", column " + column + ":" +
           if line == "" then "" else "\n  > " + shown + "\n    " + Blanks(caret) + "^"
  {
    hide Window, WindowStart, Lines, Shows, Blanks;
    line, number, column, shown, caret := LineAt(Lines(text, ""), row), "", "", "", 0;
    if row >= 0 && col >= 0 {
      number, column := Decimal(row + 1), Decimal(col + 1);
      shown, caret := line, col;
      if |line| > Wide(width) {
        var d := Located(text, row, col, width);
        shown, caret := d.line, d.caret;
        ClipShown(line, col, width);
      } else {
        ShownWhole(line, col, width);
      }
      Spelled(row, col, Located(text, row, col, width));
    }
  }

  lemma Spelled(row: nat, col: nat, d: Diagnostic)
    ensures Message(row, col, d) ==
      "Semantic source at line " + Decimal(row + 1) + ", column " + Decimal(col + 1) + ":" +
      if d.Clip? then "\n  > " + d.line + "\n    " + Blanks(d.caret) + "^" else ""
  {
    if d.Clip? {
      var head := Header(row, col);
      hide Header, Decimal;
      assert "    " == Blanks(|MARGIN|);
      assert head + "\n" + MARGIN + d.line + "\n" + "    " + Blanks(d.caret) + "^"
          == head + ("\n  > " + d.line + "\n    " + Blanks(d.caret) + "^");
    }
  }
}
