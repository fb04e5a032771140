/**
  A text held as its lines, and the flat text it stands for: what the line vector of
  include/client/editor/document.h means.
 */
module LineText {

  /** A place in a line vector: a line and a column in it. */
  datatype Cursor = Cursor(line: nat, column: nat)

  predicate OneLine(s: string) {
    '\n' !in s
  }

  /** Lines are never absent and never contain a newline. */
  predicate WellFormed(lines: seq<string>) {
    lines != [] && forall i | 0 <= i < |lines| :: OneLine(lines[i])
  }

  /** The flat text of a line vector. */
  function Join(lines: seq<string>): string
    requires lines != []
  {
    if |lines| == 1 then lines[0] else lines[0] + "\n" + Join(lines[1..])
  }

  predicate ValidCursor(lines: seq<string>, c: Cursor) {
    c.line < |lines| && c.column <= |lines[c.line]|
  }

  /** The number of characters before line `i`, newlines included. */
  function LineStart(lines: seq<string>, i: nat): nat
    requires i <= |lines|
  {
    if i == 0 then 0 else LineStart(lines, i - 1) + |lines[i - 1]| + 1
  }

  /** The position in the flat text that a cursor denotes. */
  function Offset(lines: seq<string>, c: Cursor): nat
    requires ValidCursor(lines, c)
  {
    LineStart(lines, c.line) + c.column
  }

  /** The text before and after a cursor. */
  function Before(lines: seq<string>, c: Cursor): string
    requires ValidCursor(lines, c)
  {
    Join(lines[..c.line] + [lines[c.line][..c.column]])
  }

  function After(lines: seq<string>, c: Cursor): string
    requires ValidCursor(lines, c)
  {
    Join([lines[c.line][c.column..]] + lines[c.line + 1..])
  }

  // ------------------------------------------------------- splitting and joining

  /** The first newline at or after `start`, or the length of the text: std::string::find. */
  function FindNewline(text: string, start: nat): (i: nat)
    requires start <= |text|
    ensures start <= i <= |text|
    ensures forall j | start <= j < i :: text[j] != '\n'
    ensures i < |text| ==> text[i] == '\n'
    decreases |text| - start
  {
    if start == |text| || text[start] == '\n' then start else FindNewline(text, start + 1)
  }

  /** The lines of the text from `start` on. */
  function SplitFrom(text: string, start: nat): (lines: seq<string>)
    requires start <= |text|
    ensures WellFormed(lines)
    decreases |text| - start
  {
    var end := FindNewline(text, start);
    if end == |text| then [text[start..]] else [text[start..end]] + SplitFrom(text, end + 1)
  }

  function Split(text: string): (lines: seq<string>)
    ensures WellFormed(lines)
  {
    SplitFrom(text, 0)
  }

  lemma {:induction false} JoinSplitFrom(text: string, start: nat)
    requires start <= |text|
    ensures Join(SplitFrom(text, start)) == text[start..]
    decreases |text| - start
  {
    var end := FindNewline(text, start);
    if end < |text| {
      JoinSplitFrom(text, end + 1);
      var line, rest := text[start..end], SplitFrom(text, end + 1);
      assert SplitFrom(text, start) == [line] + rest;
      assert ([line] + rest)[1..] == rest;
      assert line + "\n" + text[end + 1..] == text[start..];
    }
  }

  /** Every text is the text of its lines. */
  lemma JoinSplit(text: string)
    ensures Join(Split(text)) == text
  {
    JoinSplitFrom(text, 0);
  }

  /** A text has one well-formed line vector: two vectors with the same text are the same. */
  lemma {:induction false} JoinInjective(a: seq<string>, b: seq<string>)
    requires WellFormed(a) && WellFormed(b) && Join(a) == Join(b)
    ensures a == b
    decreases |a|
  {
    FirstLine(a);
    FirstLine(b);
    assert a[0] == Join(a)[..|a[0]|] == Join(b)[..|b[0]|] == b[0];
    if |a| > 1 && |b| > 1 {
      assert Join(a[1..]) == Join(a)[|a[0]| + 1..] == Join(b)[|b[0]| + 1..] == Join(b[1..]);
      JoinInjective(a[1..], b[1..]);
      assert a == [a[0]] + a[1..] && b == [b[0]] + b[1..];
    }
  }

  // The first newline of a text ends its first line.
  lemma FirstLine(lines: seq<string>)
    requires WellFormed(lines)
    ensures FindNewline(Join(lines), 0) == |lines[0]|
    ensures |lines| == 1 <==> |Join(lines)| == |lines[0]|
  {
    var i := FindNewline(Join(lines), 0);
    assert forall j | 0 <= j < |lines[0]| :: Join(lines)[j] == lines[0][j];
    if |lines| > 1 {
      assert Join(lines)[|lines[0]|] == '\n';
    }
  }

  /** Cutting a line in two cuts the text at that place. */
  lemma {:induction false} Glue(a: seq<string>, x: string, y: string, b: seq<string>)
    ensures Join(a + [x + y] + b) == Join(a + [x]) + Join([y] + b)
    decreases |a|
  {
    if a == [] {
      assert a + [x + y] + b == [x + y] + b && a + [x] == [x];
      if b != [] {
        assert ([x + y] + b)[1..] == b == ([y] + b)[1..];
      }
    } else {
      assert (a + [x + y] + b)[1..] == a[1..] + [x + y] + b;
      assert (a + [x])[1..] == a[1..] + [x];
      Glue(a[1..], x, y, b);
    }
  }

  lemma {:induction false} JoinLength(lines: seq<string>)
    requires lines != []
    ensures |Join(lines)| == LineStart(lines, |lines|) - 1
    decreases |lines|
  {
    var n := |lines|;
    if n > 1 {
      JoinLength(lines[..n - 1]);
      assert lines == lines[..n - 1] + [lines[n - 1]];
      JoinSnoc(lines[..n - 1], lines[n - 1]);
      LineStartPrefix(lines, n - 1, n - 1);
    } else {
      assert LineStart(lines, 1) == |lines[0]| + 1;
    }
  }

  lemma {:induction false} JoinSnoc(lines: seq<string>, last: string)
    requires lines != []
    ensures Join(lines + [last]) == Join(lines) + "\n" + last
    decreases |lines|
  {
    if |lines| > 1 {
      assert (lines + [last])[1..] == lines[1..] + [last];
      JoinSnoc(lines[1..], last);
    }
  }

  lemma {:induction false} LineStartPrefix(lines: seq<string>, k: nat, i: nat)
    requires i <= k <= |lines|
    ensures LineStart(lines[..k], i) == LineStart(lines, i)
    decreases i
  {
    if i > 0 {
      LineStartPrefix(lines, k, i - 1);
    }
  }

  /** A cursor cuts the text at its offset. */
  lemma CursorCuts(lines: seq<string>, c: Cursor)
    requires ValidCursor(lines, c)
    ensures Join(lines) == Before(lines, c) + After(lines, c)
    ensures |Before(lines, c)| == Offset(lines, c)
    ensures Join(lines)[..Offset(lines, c)] == Before(lines, c)
    ensures Join(lines)[Offset(lines, c)..] == After(lines, c)
  {
    var line := lines[c.line];
    assert line == line[..c.column] + line[c.column..];
    assert lines == lines[..c.line] + [line[..c.column] + line[c.column..]] + lines[c.line + 1..];
    Glue(lines[..c.line], line[..c.column], line[c.column..], lines[c.line + 1..]);
    if c.line > 0 {
      JoinSnoc(lines[..c.line], line[..c.column]);
      JoinLength(lines[..c.line]);
      LineStartPrefix(lines, c.line, c.line);
    } else {
      assert lines[..0] + [line[..c.column]] == [line[..c.column]];
    }
  }

  /** Distinct cursors of one document denote distinct positions, in order. */
  lemma {:induction false} OffsetsOrdered(lines: seq<string>, c: Cursor, d: Cursor)
    requires ValidCursor(lines, c) && ValidCursor(lines, d)
    requires Precedes(c, d)
    ensures Offset(lines, c) < Offset(lines, d)
    decreases d.line
  {
    if c.line < d.line {
      var e := Cursor(d.line - 1, |lines[d.line - 1]|);
      if c.line < e.line || c.column < e.column {
        OffsetsOrdered(lines, c, e);
      }
    }
  }

  predicate Precedes(c: Cursor, d: Cursor) {
    c.line < d.line || (c.line == d.line && c.column < d.column)
  }

  /** A position of the text has one cursor. */
  lemma CursorUnique(lines: seq<string>, c: Cursor, d: Cursor)
    requires ValidCursor(lines, c) && ValidCursor(lines, d) && Offset(lines, c) == Offset(lines, d)
    ensures c == d
  {
    if Precedes(c, d) {
      OffsetsOrdered(lines, c, d);
    } else if Precedes(d, c) {
      OffsetsOrdered(lines, d, c);
    }
  }

  /** Between two cursors of one line lies the part of that line. */
  lemma TextWithinLine(lines: seq<string>, c: Cursor, e: Cursor)
    requires ValidCursor(lines, c) && ValidCursor(lines, e) && c.line == e.line && c.column <= e.column
    ensures Offset(lines, c) <= Offset(lines, e) <= |Join(lines)|
    ensures Join(lines)[Offset(lines, c)..Offset(lines, e)] == lines[c.line][c.column..e.column]
  {
    CursorCuts(lines, c);
    CursorCuts(lines, e);
    BeforeWithinLine(lines, c, e);
    TailOf(Join(lines), Before(lines, c), lines[c.line][c.column..e.column], Offset(lines, c), Offset(lines, e));
  }

  lemma BeforeWithinLine(lines: seq<string>, c: Cursor, e: Cursor)
    requires ValidCursor(lines, c) && ValidCursor(lines, e) && c.line == e.line && c.column <= e.column
    ensures Before(lines, e) == Before(lines, c) + lines[c.line][c.column..e.column]
  {
    var a, x, y := lines[..c.line], lines[c.line][..c.column], lines[c.line][c.column..e.column];
    assert x + y == lines[e.line][..e.column];
    GlueLast(a, x, y);
  }

  lemma GlueLast(a: seq<string>, x: string, y: string)
    ensures Join(a + [x + y]) == Join(a + [x]) + y
  {
    Glue(a, x, y, []);
    assert a + [x + y] + [] == a + [x + y] && [y] + [] == [y];
  }

  /** Between cursors of different lines: the rest of one line, the lines between, the head of the other. */
  lemma TextAcrossLines(lines: seq<string>, c: Cursor, e: Cursor)
    requires ValidCursor(lines, c) && ValidCursor(lines, e) && c.line < e.line
    ensures Offset(lines, c) <= Offset(lines, e) <= |Join(lines)|
    ensures Join(lines)[Offset(lines, c)..Offset(lines, e)]
         == Join([lines[c.line][c.column..]] + lines[c.line + 1..e.line] + [lines[e.line][..e.column]])
  {
    CursorCuts(lines, c);
    CursorCuts(lines, e);
    var between := [lines[c.line][c.column..]] + lines[c.line + 1..e.line] + [lines[e.line][..e.column]];
    BeforeAcrossLines(lines, c, e);
    TailOf(Join(lines), Before(lines, c), Join(between), Offset(lines, c), Offset(lines, e));
  }

  lemma BeforeAcrossLines(lines: seq<string>, c: Cursor, e: Cursor)
    requires ValidCursor(lines, c) && ValidCursor(lines, e) && c.line < e.line
    ensures Before(lines, e)
         == Before(lines, c)
            + Join([lines[c.line][c.column..]] + lines[c.line + 1..e.line] + [lines[e.line][..e.column]])
  {
    var a, x, y := lines[..c.line], lines[c.line][..c.column], lines[c.line][c.column..];
    var mid, head := lines[c.line + 1..e.line], [lines[e.line][..e.column]];
    Glue(a, x, y, mid + head);
    assert x + y == lines[c.line];
    assert lines[..e.line] == a + [lines[c.line]] + mid;
    assert lines[..e.line] + head == a + [x + y] + (mid + head);
    assert [y] + (mid + head) == [y] + mid + head;
  }

  lemma TailOf(t: string, u: string, v: string, p: nat, q: nat)
    requires q <= |t| && t[..q] == u + v && |u| == p
    ensures p <= q && t[p..q] == v
  {
    assert t[..q][p..] == v;
  }

  // ------------------------------------------------------- edits

  function Clip(t: string, p: nat): (r: nat)
    ensures r <= |t|
  {
    if p <= |t| then p else |t|
  }

  /** `n` characters of `t` from `p` on replaced by `u`; the range is clipped at the end of the text. */
  function ClippedSplice(t: string, p: nat, n: nat, u: string): string {
    t[..Clip(t, p)] + u + t[Clip(t, p + n)..]
  }

  /** The line vector with a cursor's line replaced by several lines of text. */
  function Woven(lines: seq<string>, c: Cursor, text: seq<string>): seq<string>
    requires ValidCursor(lines, c) && |text| >= 2
  {
    lines[..c.line] + [lines[c.line][..c.column] + text[0]] + text[1..|text| - 1]
    + [text[|text| - 1] + lines[c.line][c.column..]] + lines[c.line + 1..]
  }

  /** The line vector with everything between two cursors removed. */
  function Cut(lines: seq<string>, c: Cursor, e: Cursor): seq<string>
    requires ValidCursor(lines, c) && ValidCursor(lines, e)
  {
    lines[..c.line] + [lines[c.line][..c.column] + lines[e.line][e.column..]] + lines[e.line + 1..]
  }

  lemma EditsStayWellFormed(lines: seq<string>, c: Cursor, e: Cursor, text: seq<string>)
    requires WellFormed(lines) && ValidCursor(lines, c) && ValidCursor(lines, e) && WellFormed(text)
    ensures WellFormed(Cut(lines, c, e))
    ensures |text| >= 2 ==> WellFormed(Woven(lines, c, text))
  {
  }

  // Lines above an edit keep their places.
  lemma SameStart(a: seq<string>, b: seq<string>, i: nat)
    requires i <= |a| && i <= |b| && a[..i] == b[..i]
    ensures LineStart(a, i) == LineStart(b, i)
  {
    LineStartPrefix(a, i, i);
    LineStartPrefix(b, i, i);
  }

  /** Replacing part of a line by text. */
  lemma InsertInLine(lines: seq<string>, c: Cursor, n: nat, text: string)
    requires ValidCursor(lines, c) && c.column + n <= |lines[c.line]|
    ensures Offset(lines, c) + n <= |Join(lines)|
    ensures Join(lines[c.line := lines[c.line][..c.column] + text + lines[c.line][c.column + n..]])
         == ClippedSplice(Join(lines), Offset(lines, c), n, text)
  {
    var line := lines[c.line];
    var a, b := lines[..c.line], lines[c.line + 1..];
    var x, y := line[..c.column], line[c.column + n..];
    var e := Cursor(c.line, c.column + n);
    CursorCuts(lines, c);
    CursorCuts(lines, e);
    assert lines[c.line := x + text + y] == a + [x + (text + y)] + b by {
      assert x + text + y == x + (text + y);
    }
    Glue(a, x, text + y, b);
    assert [] + [text + y] + b == [text + y] + b && [] + [text] == [text];
    Glue([], text, y, b);
  }

  /** Inserting several lines of text. */
  lemma InsertLines(lines: seq<string>, c: Cursor, text: seq<string>)
    requires ValidCursor(lines, c) && |text| >= 2
    ensures Offset(lines, c) <= |Join(lines)|
    ensures Join(Woven(lines, c, text))
         == ClippedSplice(Join(lines), Offset(lines, c), 0, Join(text))
  {
    var line, n := lines[c.line], |text|;
    var a, b := lines[..c.line], lines[c.line + 1..];
    var x, y, mid := line[..c.column], line[c.column..], text[1..n - 1];
    CursorCuts(lines, c);
    Glue(a + [x + text[0]] + mid, text[n - 1], y, b);
    assert a + [x + text[0]] + mid + [text[n - 1]] == a + [x + text[0]] + (mid + [text[n - 1]]);
    Glue(a, x, text[0], mid + [text[n - 1]]);
    assert [text[0]] + (mid + [text[n - 1]]) == text;
  }

  /** Joining what is left of one cursor to what is right of another removes the text between. */
  lemma RemoveBetween(lines: seq<string>, c: Cursor, e: Cursor)
    requires ValidCursor(lines, c) && ValidCursor(lines, e) && Offset(lines, c) <= Offset(lines, e)
    ensures Offset(lines, e) <= |Join(lines)|
    ensures Join(Cut(lines, c, e))
         == Join(lines)[..Offset(lines, c)] + Join(lines)[Offset(lines, e)..]
  {
    CursorCuts(lines, c);
    CursorCuts(lines, e);
    Glue(lines[..c.line], lines[c.line][..c.column], lines[e.line][e.column..], lines[e.line + 1..]);
  }

  /** Cutting from a cursor to the cursor `n` characters further on deletes those characters. */
  lemma CutDeletes(lines: seq<string>, c: Cursor, e: Cursor, n: nat)
    requires WellFormed(lines) && ValidCursor(lines, c) && ValidCursor(lines, e)
    requires Offset(lines, c) <= |Join(lines)| && Offset(lines, e) == Clip(Join(lines), Offset(lines, c) + n)
    ensures WellFormed(Cut(lines, c, e)) && ValidCursor(Cut(lines, c, e), c)
    ensures Join(Cut(lines, c, e)) == ClippedSplice(Join(lines), Offset(lines, c), n, "")
    ensures Offset(Cut(lines, c, e), c) == Offset(lines, c)
  {
    RemoveBetween(lines, c, e);
    EditsStayWellFormed(lines, c, e, [""]);
    SameStart(Cut(lines, c, e), lines, c.line);
  }

  /** Weaving the lines of a text in at a cursor inserts the text there. */
  lemma WeavingInserts(lines: seq<string>, c: Cursor, text: string)
    requires WellFormed(lines) && ValidCursor(lines, c) && |Split(text)| >= 2
    ensures WellFormed(Woven(lines, c, Split(text))) && Offset(lines, c) <= |Join(lines)|
    ensures Join(Woven(lines, c, Split(text))) == ClippedSplice(Join(lines), Offset(lines, c), 0, text)
  {
    JoinSplit(text);
    InsertLines(lines, c, Split(text));
    EditsStayWellFormed(lines, c, c, Split(text));
  }

  lemma OneLineInserts(lines: seq<string>, c: Cursor, text: string)
    requires WellFormed(lines) && ValidCursor(lines, c) && |Split(text)| == 1
    ensures var line := lines[c.line];
            var edited := lines[c.line := line[..c.column] + text + line[c.column..]];
            && Split(text) == [text] && WellFormed(edited) && Offset(lines, c) <= |Join(lines)|
            && Join(edited) == ClippedSplice(Join(lines), Offset(lines, c), 0, text)
  {
    JoinSplit(text);
    InsertInLine(lines, c, 0, text);
  }
}
