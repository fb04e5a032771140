/**
  The line-based document of include/client/editor/document.h: each edit of the line vector is the
  matching splice of the flat text. Locks, callbacks, clocks, cursors of users and the
  timestamp-keyed record of deleted texts are left out.
 */
module Document {
  import opened LineText

  datatype OperationType = INSERT | DELETE | REPLACE

  datatype DocumentOperation = DocumentOperation(kind: OperationType, position: Cursor, text: string, length: nat)

  const MAX_HISTORY_SIZE: nat := 1000

  /** A history with one operation more; the oldest is dropped when it grows past the limit. */
  function Recorded(history: seq<DocumentOperation>, op: DocumentOperation): seq<DocumentOperation> {
    var grown := history + [op];
    if |grown| > MAX_HISTORY_SIZE then grown[1..] else grown
  }

  function RecordedAll(history: seq<DocumentOperation>, ops: seq<DocumentOperation>): seq<DocumentOperation>
    decreases |ops|
  {
    if ops == [] then history else RecordedAll(Recorded(history, ops[0]), ops[1..])
  }

  /** Over any run of records the history is the newest thousand of them, in order. */
  lemma {:induction false} NewestThousand(history: seq<DocumentOperation>, ops: seq<DocumentOperation>)
    requires |history| <= 1000
    ensures var all := history + ops;
            RecordedAll(history, ops) == all[if |all| > 1000 then |all| - 1000 else 0..]
    decreases |ops|
  {
    var all := history + ops;
    if ops == [] {
      assert all == history;
    } else {
      var next := Recorded(history, ops[0]);
      NewestThousand(next, ops[1..]);
      if |history| < 1000 {
        assert next + ops[1..] == all;
      } else {
        assert next + ops[1..] == all[1..];
      }
    }
  }

  class Document {
    var lines: seq<string>
    var version: nat
    var operationHistory: seq<DocumentOperation>
    var redoStack: seq<DocumentOperation>

    constructor ()
      ensures Valid() && Text() == "" && version == 0 && operationHistory == [] && redoStack == []
    {
      lines, version, operationHistory, redoStack := [""], 0, [], [];
    }

    /** The line list is never empty and no line holds a newline. */
    predicate Valid()
      reads this
    {
      WellFormed(lines) && |operationHistory| <= MAX_HISTORY_SIZE
    }

    /** The flat text the document stands for. */
    function Text(): string
      requires Valid()
      reads this
    {
      Join(lines)
    }

    predicate IsValidPosition(position: Cursor)
      reads this
    {
      ValidCursor(lines, position)
    }

    // ----------------------------------------------------- reading

    method GetText() returns (result: string)
      requires Valid()
      ensures result == Text()
    {
      result := "";
      for i := 0 to |lines|
        invariant i == 0 ==> result == ""
        invariant 0 < i < |lines| ==> result == Join(lines[..i]) + "\n"
        invariant i == |lines| ==> result == Join(lines[..i])
      {
        assert lines[..i + 1] == lines[..i] + [lines[i]];
        if i > 0 {
          JoinSnoc(lines[..i], lines[i]);
        }
        result := result + lines[i];
        if i < |lines| - 1 {
          result := result + "\n";
        }
      }
      assert lines[..|lines|] == lines;
    }

    method GetTextLength() returns (length: nat)
      requires Valid()
      ensures length == |Text()|
    {
      length := 0;
      for i := 0 to |lines|
        invariant length == LineStart(lines, i)
      {
        length := length + |lines[i]| + 1;
      }
      JoinLength(lines);
      length := length - 1;
    }

    /** The position of a cursor in the text; columns are clipped to the line, lines to the text. */
    method CursorToLinear(cursor: Cursor) returns (position: nat)
      requires Valid()
      ensures position <= |Text()|
      ensures cursor.line >= |lines| ==> position == |Text()|
      ensures cursor.line < |lines| ==>
                var column := if cursor.column <= |lines[cursor.line]| then cursor.column else |lines[cursor.line]|;
                position == Offset(lines, Cursor(cursor.line, column))
    {
      if cursor.line >= |lines| {
        position := GetTextLength();
        return;
      }
      position := 0;
      for i := 0 to cursor.line
        invariant position == LineStart(lines, i)
      {
        position := position + |lines[i]| + 1;
      }
      var column := if cursor.column <= |lines[cursor.line]| then cursor.column else |lines[cursor.line]|;
      position := position + column;
      CursorCuts(lines, Cursor(cursor.line, column));
    }

    /** The cursor that denotes a position of the text, or its end for positions past it. */
    method LinearToCursor(position: nat) returns (cursor: Cursor)
      requires Valid()
      ensures IsValidPosition(cursor)
      ensures Offset(lines, cursor) == if position <= |Text()| then position else |Text()|
    {
      var line, current := 0, 0;
      JoinLength(lines);
      while line < |lines|
        invariant line <= |lines| && current == LineStart(lines, line)
        invariant line > 0 ==> current <= position
      {
        if current + |lines[line]| >= position {
          cursor := Cursor(line, position - current);
          CursorCuts(lines, cursor);
          return;
        }
        current := current + |lines[line]| + 1;
        line := line + 1;
      }
      cursor := Cursor(|lines| - 1, |lines[|lines| - 1]|);
    }

    /** The text of a range; it is clipped at the end of the document and empty off the document. */
    method GetTextRange(start: Cursor, length: nat) returns (range: string)
      requires Valid()
      ensures !IsValidPosition(start) ==> range == ""
      ensures IsValidPosition(start) ==>
                var p := Offset(lines, start);
                && p <= |Text()|
                && range == Text()[p..if p + length > |Text()| then |Text()| else p + length]
    {
      if !IsValidPosition(start) {
        return "";
      }
      var startPos := CursorToLinear(start);
      var fullText := GetText();
      if startPos + length > |fullText| {
        range := fullText[startPos..];
      } else {
        range := fullText[startPos..startPos + length];
      }
    }

    /** The text between two cursors, given in either order. */
    method GetTextBetween(start: Cursor, end: Cursor) returns (range: string)
      requires Valid()
      ensures !IsValidPosition(start) || !IsValidPosition(end) ==> range == ""
      ensures IsValidPosition(start) && IsValidPosition(end) ==>
                var p, q := Offset(lines, start), Offset(lines, end);
                p <= |Text()| && q <= |Text()| && range == if p <= q then Text()[p..q] else Text()[q..p]
      decreases Precedes(end, start)
    {
      if !IsValidPosition(start) || !IsValidPosition(end) {
        return "";
      }
      if Precedes(end, start) {
        OffsetsOrdered(lines, end, start);
        range := GetTextBetween(end, start);
        return;
      }
      if start.line == end.line {
        TextWithinLine(lines, start, end);
        range := lines[start.line][start.column..end.column];
        return;
      }
      TextAcrossLines(lines, start, end);
      ghost var pieces := [lines[start.line][start.column..]];
      range := lines[start.line][start.column..] + "\n";
      for line := start.line + 1 to end.line
        invariant pieces == [lines[start.line][start.column..]] + lines[start.line + 1..line]
        invariant pieces != [] && range == Join(pieces) + "\n"
      {
        range := range + (lines[line] + "\n");
        JoinSnoc(pieces, lines[line]);
        SliceSnoc(lines, start.line + 1, line);
        pieces := pieces + [lines[line]];
      }
      JoinSnoc(pieces, lines[end.line][..end.column]);
      range := range + lines[end.line][..end.column];
    }

    // ----------------------------------------------------- editing

    method RecordOperation(op: DocumentOperation)
      modifies this`operationHistory, this`redoStack
      ensures operationHistory == Recorded(old(operationHistory), op) && redoStack == []
    {
      operationHistory := operationHistory + [op];
      if |operationHistory| > MAX_HISTORY_SIZE {
        operationHistory := operationHistory[1..];
      }
      redoStack := [];
    }

    /** Replaces the text; a text that ends in a newline gains one more. */
    method SetText(text: string)
      modifies this
      ensures |old(operationHistory)| <= MAX_HISTORY_SIZE ==> Valid()
      ensures WellFormed(lines)
      ensures Join(lines) == if text != "" && text[|text| - 1] == '\n' then text + "\n" else text
      ensures version == old(version) + 1
      ensures operationHistory == Recorded(old(operationHistory), DocumentOperation(REPLACE, Cursor(0, 0), text, 0))
    {
      lines := SplitLines(text);
      JoinSplit(text);
      if text != "" && text[|text| - 1] == '\n' {
        JoinSnoc(lines, "");
        lines := lines + [""];
      }
      RecordOperation(DocumentOperation(REPLACE, Cursor(0, 0), text, 0));
      version := version + 1;
    }

    /** Inserts text at a cursor: a splice of the flat text at the position the cursor denotes. */
    method InsertText(position: Cursor, text: string) returns (ok: bool)
      requires Valid()
      modifies this
      ensures Valid() && ok == old(IsValidPosition(position))
      ensures !ok ==> unchanged(this)
      ensures ok ==> Text() == ClippedSplice(old(Text()), old(Offset(lines, position)), 0, text)
      ensures ok ==> version == old(version) + 1 && redoStack == []
      ensures ok ==> operationHistory == Recorded(old(operationHistory), DocumentOperation(INSERT, position, text, 0))
    {
      if !IsValidPosition(position) {
        return false;
      }
      CursorCuts(lines, position);
      if FindNewline(text, 0) < |text| {
        ok := InsertMultilineText(position, text);
        return;
      }
      InsertInLine(lines, position, 0, text);
      var line := lines[position.line];
      lines := lines[position.line := line[..position.column] + text + line[position.column..]];
      RecordOperation(DocumentOperation(INSERT, position, text, 0));
      version := version + 1;
      ok := true;
    }

    method InsertMultilineText(position: Cursor, text: string) returns (ok: bool)
      requires Valid() && IsValidPosition(position) && Offset(lines, position) <= |Text()|
      modifies this
      ensures Valid() && ok
      ensures Text() == ClippedSplice(old(Text()), old(Offset(lines, position)), 0, text)
      ensures version == old(version) + 1 && redoStack == []
      ensures operationHistory == Recorded(old(operationHistory), DocumentOperation(INSERT, position, text, 0))
    {
      var newLines := SplitLines(text);
      if |newLines| > 1 {
        WeavingInserts(lines, position, text);
      } else {
        OneLineInserts(lines, position, text);
      }
      WeaveIn(position, newLines);
      RecordOperation(DocumentOperation(INSERT, position, text, 0));
      version := version + 1;
      ok := true;
    }

    // The line vector's part of it: the first new line ends what was before the cursor, the last one
    // starts what was after it.
    method WeaveIn(position: Cursor, newLines: seq<string>)
      requires IsValidPosition(position) && newLines != []
      modifies this`lines
      ensures |newLines| > 1 ==> lines == Woven(old(lines), position, newLines)
      ensures |newLines| == 1 ==>
                var line := old(lines)[position.line];
                lines == old(lines)[position.line := line[..position.column] + newLines[0] + line[position.column..]]
    {
      var line := lines[position.line];
      var beforeText, afterText := line[..position.column], line[position.column..];
      lines := lines[position.line := beforeText + newLines[0]];
      ghost var head, tail := old(lines)[..position.line] + [beforeText + newLines[0]], old(lines)[position.line + 1..];
      var i := 1;
      while i < |newLines| - 1
        invariant 1 <= i <= if |newLines| > 1 then |newLines| - 1 else 1
        invariant lines == head + newLines[1..i] + tail
      {
        InsertedBetween(head + newLines[1..i], newLines[i], tail);
        SliceSnoc(newLines, 1, i);
        lines := lines[..position.line + i] + [newLines[i]] + lines[position.line + i..];
        i := i + 1;
      }
      if |newLines| > 1 {
        var n := |newLines|;
        InsertedBetween(head + newLines[1..n - 1], newLines[n - 1] + afterText, tail);
        lines := lines[..position.line + n - 1] + [newLines[n - 1] + afterText] + lines[position.line + n - 1..];
      } else {
        lines := lines[position.line := lines[position.line] + afterText];
      }
    }

    /** Deletes characters from a cursor on, as far as the text goes. */
    method DeleteText(position: Cursor, length: nat) returns (ok: bool)
      requires Valid()
      modifies this
      ensures Valid() && ok == old(IsValidPosition(position))
      ensures !ok ==> unchanged(this)
      ensures ok ==> Text() == ClippedSplice(old(Text()), old(Offset(lines, position)), length, "")
      ensures ok ==> IsValidPosition(position) && Offset(lines, position) == old(Offset(lines, position))
      ensures ok ==> version == old(version) + 1 && redoStack == []
      ensures ok ==> operationHistory == Recorded(old(operationHistory), DocumentOperation(DELETE, position, "", length))
    {
      if !IsValidPosition(position) {
        return false;
      }
      CursorCuts(lines, position);
      var line := lines[position.line];
      if position.column + length <= |line| {
        InsertInLine(lines, position, length, "");
        lines := lines[position.line := line[..position.column] + line[position.column + length..]];
        assert line[..position.column] + "" + line[position.column + length..]
            == line[..position.column] + line[position.column + length..];
        SameStart(lines, old(lines), position.line);
        RecordOperation(DocumentOperation(DELETE, position, "", length));
        version := version + 1;
        ok := true;
      } else {
        ok := DeleteMultilineText(position, length);
      }
    }

    method DeleteMultilineText(position: Cursor, length: nat) returns (ok: bool)
      requires Valid() && IsValidPosition(position) && Offset(lines, position) <= |Text()|
      modifies this
      ensures Valid() && ok
      ensures Text() == ClippedSplice(old(Text()), old(Offset(lines, position)), length, "")
      ensures IsValidPosition(position) && Offset(lines, position) == old(Offset(lines, position))
      ensures version == old(version) + 1 && redoStack == []
      ensures operationHistory == Recorded(old(operationHistory), DocumentOperation(DELETE, position, "", length))
    {
      var start := CursorToLinear(position);
      var endPos := LinearToCursor(start + length);
      EndAfterStart(lines, position, endPos);
      CutDeletes(lines, position, endPos, length);
      CutOut(position, endPos);
      RecordOperation(DocumentOperation(DELETE, position, "", length));
      version := version + 1;
      ok := true;
    }

    // The line vector's part of it.
    method CutOut(position: Cursor, endPos: Cursor)
      requires IsValidPosition(position) && IsValidPosition(endPos) && position.line <= endPos.line
      modifies this`lines
      ensures lines == Cut(old(lines), position, endPos)
    {
      if position.line == endPos.line {
        var line := lines[position.line];
        lines := lines[position.line := line[..position.column] + line[endPos.column..]];
      } else {
        var beforeText := lines[position.line][..position.column];
        var afterText := lines[endPos.line][endPos.column..];
        lines := lines[position.line := beforeText + afterText];
        lines := lines[..position.line + 1] + lines[endPos.line + 1..];
      }
    }

    /** Replaces characters from a cursor on: one splice, recorded as one operation or as two. */
    method ReplaceText(position: Cursor, length: nat, newText: string) returns (ok: bool)
      requires Valid()
      modifies this
      ensures Valid() && ok == old(IsValidPosition(position))
      ensures !ok ==> unchanged(this)
      ensures ok ==> Text() == ClippedSplice(old(Text()), old(Offset(lines, position)), length, newText)
      ensures ok ==> redoStack == []
      ensures ok && old(position.column + length <= |lines[position.line]|) && OneLine(newText) ==>
                && version == old(version) + 1
                && operationHistory == Recorded(old(operationHistory), DocumentOperation(REPLACE, position, newText, length))
      ensures ok && !(old(position.column + length <= |lines[position.line]|) && OneLine(newText)) ==>
                && version == old(version) + 2
                && operationHistory == Recorded(Recorded(old(operationHistory), DocumentOperation(DELETE, position, "", length)),
                                                DocumentOperation(INSERT, position, newText, 0))
    {
      if !IsValidPosition(position) {
        return false;
      }
      CursorCuts(lines, position);
      var line := lines[position.line];
      if length > |line| - position.column || FindNewline(newText, 0) < |newText| {
        ok := DeleteText(position, length);
        if ok {
          ok := InsertText(position, newText);
        }
        return;
      }
      InsertInLine(lines, position, length, newText);
      lines := lines[position.line := line[..position.column] + newText + line[position.column + length..]];
      RecordOperation(DocumentOperation(REPLACE, position, newText, length));
      version := version + 1;
      ok := true;
    }
  }

  /** The loop that cuts a text at its newlines. */
  method SplitLines(text: string) returns (lines: seq<string>)
    ensures lines == Split(text)
  {
    lines := [];
    var start := 0;
    var end := FindNewline(text, 0);
    while end < |text|
      invariant start <= end <= |text| && end == FindNewline(text, start)
      invariant lines + SplitFrom(text, start) == Split(text)
      decreases |text| - end
    {
      AppendedLine(lines, text[start..end], SplitFrom(text, end + 1));
      lines := lines + [text[start..end]];
      start := end + 1;
      end := FindNewline(text, start);
    }
    lines := lines + [text[start..]];
  }

  lemma SliceSnoc(lines: seq<string>, i: nat, j: nat)
    requires i <= j < |lines|
    ensures lines[i..j + 1] == lines[i..j] + [lines[j]]
  {
  }

  lemma AppendedLine(lines: seq<string>, line: string, rest: seq<string>)
    ensures lines + ([line] + rest) == lines + [line] + rest
  {
  }

  lemma InsertedBetween(a: seq<string>, x: string, b: seq<string>)
    ensures (a + b)[..|a|] + [x] + (a + b)[|a|..] == a + ([x] + b) == a + [x] + b
  {
  }

  // A cursor at a later position does not precede.
  lemma EndAfterStart(lines: seq<string>, c: Cursor, e: Cursor)
    requires ValidCursor(lines, c) && ValidCursor(lines, e) && Offset(lines, c) <= Offset(lines, e)
    ensures c.line < e.line || (c.line == e.line && c.column <= e.column)
  {
    if e.line < c.line || (e.line == c.line && e.column < c.column) {
      OffsetsOrdered(lines, e, c);
    }
  }
}
