/** Lines of a text, and offsets as lines and columns: get_line_and_column_for_position of buildscripts/errorcodes.py. */
module LineColumn {
  import opened Sequences

  /** Where line `k` (from 0) starts; for k == |lines|, the length of the text. */
  function StartOf(lines: seq<string>, k: nat): nat
    requires k <= |lines|
  {
    if k == 0 then 0 else StartOf(lines, k - 1) + |lines[k - 1]|
  }

  /** bisect.bisect on a sorted list: how many entries do not exceed `x`. */
  function Bisect(sorted: seq<nat>, x: nat): nat {
    if sorted == [] || sorted[0] > x then 0 else 1 + Bisect(sorted[1..], x)
  }

  /** `line` and `column`, counted from 1, name the character at `offset`. */
  ghost predicate IsPosition(lines: seq<string>, offset: nat, line: int, column: int) {
    && 1 <= line <= |lines| && 1 <= column <= |lines[line - 1]|
    && StartOf(lines, line - 1) + column - 1 == offset
  }

  /** On a sorted list, bisecting finds where `x` would go. */
  lemma {:induction false} BisectBounds(sorted: seq<nat>, x: nat)
    requires forall i, j :: 0 <= i < j < |sorted| ==> sorted[i] <= sorted[j]
    ensures var k := Bisect(sorted, x);
            k <= |sorted| && (k > 0 ==> sorted[k - 1] <= x) && (k < |sorted| ==> sorted[k] > x)
  {
    if sorted != [] && sorted[0] <= x {
      BisectBounds(sorted[1..], x);
    }
  }

  lemma {:induction false} StartsRise(lines: seq<string>, i: nat, j: nat)
    requires i <= j <= |lines|
    ensures StartOf(lines, i) <= StartOf(lines, j)
    ensures i < j ==> StartOf(lines, i) + |lines[i]| <= StartOf(lines, j)
    decreases j
  {
    if i < j {
      StartsRise(lines, i, j - 1);
    }
  }

  lemma PositionIsUnique(lines: seq<string>, offset: nat, line: int, column: int, line': int, column': int)
    requires IsPosition(lines, offset, line, column) && IsPosition(lines, offset, line', column')
    ensures line == line' && column == column'
  {
    if line < line' {
      StartsRise(lines, line - 1, line' - 1);
    } else if line' < line {
      StartsRise(lines, line' - 1, line - 1);
    }
  }

  /** The character named is the one at that offset of the whole text. */
  lemma {:induction false} PositionInText(lines: seq<string>, k: nat, c: nat)
    requires k < |lines| && c < |lines[k]|
    ensures StartOf(lines, k) + c < |Flatten(lines)| && Flatten(lines)[StartOf(lines, k) + c] == lines[k][c]
  {
    StartIsLength(lines, k);
    FlattenConcat(lines[..k], lines[k..]);
    assert lines == lines[..k] + lines[k..];
    assert Flatten(lines[k..]) == lines[k] + Flatten(lines[k..][1..]);
  }

  lemma {:induction false} StartIsLength(lines: seq<string>, k: nat)
    requires k <= |lines|
    ensures StartOf(lines, k) == |Flatten(lines[..k])|
  {
    if k > 0 {
      StartIsLength(lines, k - 1);
      assert lines[..k] == lines[..k - 1] + [lines[k - 1]];
      FlattenConcat(lines[..k - 1], [lines[k - 1]]);
      assert Flatten([lines[k - 1]]) == lines[k - 1] + Flatten([]);
    }
  }

  /** Where every line starts, and the length of the text. */
  ghost predicate AreStarts(lines: seq<string>, starts: seq<nat>) {
    |starts| == |lines| + 1 && forall k :: 0 <= k <= |lines| ==> starts[k] == StartOf(lines, k)
  }

  lemma StartsSorted(lines: seq<string>, starts: seq<nat>)
    requires AreStarts(lines, starts)
    ensures starts[0] == 0 && forall i, j :: 0 <= i < j < |starts| ==> starts[i] <= starts[j]
  {
    forall i, j | 0 <= i < j < |starts| ensures starts[i] <= starts[j] {
      StartsRise(lines, i, j);
    }
  }

  /** Bisecting the starts: the last one that does not exceed the offset. */
  lemma BisectFindsLine(starts: seq<nat>, offset: nat)
    requires starts != [] && starts[0] == 0 && forall i, j :: 0 <= i < j < |starts| ==> starts[i] <= starts[j]
    ensures var line := Bisect(starts, offset);
            && 1 <= line <= |starts| && starts[line - 1] <= offset && (line < |starts| ==> offset < starts[line])
            && (line == |starts| <==> offset >= starts[|starts| - 1])
  {
    BisectBounds(starts, offset);
  }

  /** Inside the text bisecting gives a position, past its end the line is one too many. */
  lemma BisectFindsPosition(lines: seq<string>, starts: seq<nat>, offset: nat)
    requires AreStarts(lines, starts)
    ensures var line := Bisect(starts, offset);
            && 1 <= line <= |starts| && starts[line - 1] <= offset
            && (offset < |Flatten(lines)| ==> IsPosition(lines, offset, line, offset - starts[line - 1] + 1))
            && (offset >= |Flatten(lines)| ==> line == |lines| + 1 && starts[line - 1] == |Flatten(lines)|)
  {
    StartsSorted(lines, starts);
    BisectFindsLine(starts, offset);
    StartIsLength(lines, |lines|);
    assert lines[..|lines|] == lines;
    var line := Bisect(starts, offset);
    assert starts[line - 1] == StartOf(lines, line - 1);
    if line < |starts| {
      assert starts[line] == StartOf(lines, line) == StartOf(lines, line - 1) + |lines[line - 1]|;
    }
  }

  // ---------- The lines of a text ----------

  /** What ends a line for str.splitlines only: vertical tab, form feed, the separators, next line. */
  predicate IsOtherBreak(c: char) {
    || c == '\U{b}' || c == '\U{c}' || c == '\U{1c}' || c == '\U{1d}' || c == '\U{1e}'
    || c == '\U{85}' || c == '\U{2028}' || c == '\U{2029}'
  }

  /** `all` is true for splitlines, and false for readlines, which knows only the line feed. */
  predicate EndsLine(c: char, all: bool) {
    c == '\n' || (all && IsOtherBreak(c))
  }

  /** The lines of a text, each with its end. */
  function LinesOf(text: string, all: bool): seq<string> {
    if text == "" then []
    else
      var rest := LinesOf(text[1..], all);
      if EndsLine(text[0], all) || rest == [] then [[text[0]]] + rest else [[text[0]] + rest[0]] + rest[1..]
  }

  /** How many line ends a text holds. */
  function Ends(text: string, all: bool): nat {
    if text == "" then 0 else Ends(text[1..], all) + if EndsLine(text[0], all) then 1 else 0
  }

  lemma {:induction false} LinesMakeText(text: string, all: bool)
    ensures Flatten(LinesOf(text, all)) == text && (LinesOf(text, all) == [] <==> text == "")
  {
    if text != "" {
      var rest := LinesOf(text[1..], all);
      LinesMakeText(text[1..], all);
      assert text == [text[0]] + text[1..];
      if !EndsLine(text[0], all) && rest != [] {
        assert Flatten(rest) == rest[0] + Flatten(rest[1..]);
        assert ([text[0]] + rest[0]) + Flatten(rest[1..]) == [text[0]] + (rest[0] + Flatten(rest[1..]));
      }
    }
  }

  lemma {:induction false} StartAfterFirst(first: string, rest: seq<string>, k: nat)
    requires k <= |rest|
    ensures StartOf([first] + rest, k + 1) == |first| + StartOf(rest, k)
  {
    if k > 0 {
      StartAfterFirst(first, rest, k - 1);
    }
  }

  /** The line of an offset is one more than the number of line ends before it. */
  lemma {:induction false} LineOfOffset(text: string, all: bool, offset: nat) returns (column: nat)
    requires offset < |text|
    ensures IsPosition(LinesOf(text, all), offset, 1 + Ends(text[..offset], all), column)
  {
    if offset == 0 {
      column := 1;
    } else {
      column := LineOfOffset(text[1..], all, offset - 1);
      assert text[..offset][1..] == text[1..][..offset - 1] && text[..offset][0] == text[0];
      column := PositionWithFirst(text, all, offset - 1, 1 + Ends(text[1..][..offset - 1], all), column);
    }
  }

  /** What one more character in front does to a position. */
  lemma PositionWithFirst(text: string, all: bool, offset: nat, line: int, column: int) returns (column': nat)
    requires text != "" && IsPosition(LinesOf(text[1..], all), offset, line, column)
    ensures IsPosition(LinesOf(text, all), offset + 1, if EndsLine(text[0], all) then line + 1 else line, column')
  {
    var rest := LinesOf(text[1..], all);
    column' := column;
    if EndsLine(text[0], all) {
      StartAfterFirst([text[0]], rest, line - 1);
    } else if line == 1 {
      column' := column + 1;
    } else {
      StartAfterFirst([text[0]] + rest[0], rest[1..], line - 2);
      StartAfterFirst(rest[0], rest[1..], line - 2);
      assert rest == [rest[0]] + rest[1..];
    }
  }

  /** readlines has a line with the number that splitlines gives the offset. */
  predicate HasLine(text: string, offset: nat)
    requires offset <= |text|
  {
    Ends(text[..offset], true) < |LinesOf(text, false)|
  }

  lemma {:induction false} SameEnds(text: string)
    requires forall k :: 0 <= k < |text| ==> !IsOtherBreak(text[k])
    ensures Ends(text, true) == Ends(text, false)
  {
    if text != "" {
      SameEnds(text[1..]);
    }
  }

  /** Without the other characters every offset of the text has its line. */
  lemma PlainHasLine(text: string, offset: nat)
    requires offset < |text| && forall k :: 0 <= k < offset ==> !IsOtherBreak(text[k])
    ensures HasLine(text, offset)
  {
    SameEnds(text[..offset]);
    var column := LineOfOffset(text, false, offset);
  }

  function OtherBreaks(text: string): nat {
    if text == "" then 0 else OtherBreaks(text[1..]) + if IsOtherBreak(text[0]) then 1 else 0
  }

  lemma {:induction false} EndsAreBoth(text: string)
    ensures Ends(text, true) == Ends(text, false) + OtherBreaks(text)
  {
    if text != "" {
      EndsAreBoth(text[1..]);
    }
  }

  lemma {:induction false} LinesFromOffset(text: string, offset: nat)
    requires offset < |text|
    ensures |LinesOf(text, false)| == Ends(text[..offset], false) + |LinesOf(text[offset..], false)|
  {
    if offset == 0 {
      assert text[0..] == text;
    } else {
      LinesFromOffset(text[1..], offset - 1);
      assert text == [text[0]] + text[1..] && text[1..][offset - 1..] == text[offset..];
      assert text[..offset][1..] == text[1..][..offset - 1] && text[..offset][0] == text[0];
      LinesWithFirst(text[0], text[1..]);
    }
  }

  /** A place has its line exactly if the other line ends before it are fewer than the lines from it on. */
  lemma HasLineExactly(text: string, offset: nat)
    requires offset < |text|
    ensures HasLine(text, offset) <==> OtherBreaks(text[..offset]) < |LinesOf(text[offset..], false)|
  {
    EndsAreBoth(text[..offset]);
    LinesFromOffset(text, offset);
  }

  /** How many lines more a text has with one more character in front. */
  lemma LinesWithFirst(c: char, text: string)
    ensures |LinesOf([c] + text, false)| == if c == '\n' || text == "" then 1 + |LinesOf(text, false)| else |LinesOf(text, false)|
  {
    assert ([c] + text)[1..] == text;
    LinesMakeText(text, false);
  }

  lemma {:induction false} LinesWithFront(front: string, text: string)
    requires '\n' !in front && front != ""
    ensures |LinesOf(front + text, false)| == if text == "" then 1 else |LinesOf(text, false)|
  {
    var rest := front[1..] + text;
    assert front + text == [front[0]] + rest;
    LinesWithFirst(front[0], rest);
    if front[1..] == "" {
      assert rest == text;
    } else {
      LinesWithFront(front[1..], text);
    }
  }

  // ---------- From an offset to line and column ----------

  method LineOffsets(lines: seq<string>) returns (starts: seq<nat>)
    ensures AreStarts(lines, starts)
  {
    starts := [0];
    for i := 0 to |lines|
      invariant |starts| == i + 1 && forall k :: 0 <= k <= i ==> starts[k] == StartOf(lines, k)
    {
      starts := starts + [starts[i] + |lines[i]|];
    }
  }

  /** A position names the character at the offset, and its line is one more than the line ends before it. */
  lemma PositionMeans(text: string, lines: seq<string>, offset: nat, line: int, column: int)
    requires lines == LinesOf(text, true) && offset < |text| && IsPosition(lines, offset, line, column)
    ensures text[offset] == lines[line - 1][column - 1] && line == 1 + Ends(text[..offset], true)
  {
    LinesMakeText(text, true);
    CharAtPosition(lines, offset, line, column);
    var column' := LineOfOffset(text, true, offset);
    PositionIsUnique(lines, offset, line, column, 1 + Ends(text[..offset], true), column');
  }

  lemma CharAtPosition(lines: seq<string>, offset: nat, line: int, column: int)
    requires IsPosition(lines, offset, line, column)
    ensures offset < |Flatten(lines)| && Flatten(lines)[offset] == lines[line - 1][column - 1]
  {
    PositionInText(lines, line - 1, column - 1);
  }

  /**
   Line and column, counted from 1, name the character at the offset; the line is one more than the number of
   line ends before it. Past the end of the text the line is one too many.
   */
  method GetLineAndColumn(text: string, offset: nat) returns (line: int, column: int)
    ensures offset < |text| ==> line == 1 + Ends(text[..offset], true)
    ensures offset < |text| ==>
              IsPosition(LinesOf(text, true), offset, line, column) && text[offset] == LinesOf(text, true)[line - 1][column - 1]
    ensures offset >= |text| ==> line == |LinesOf(text, true)| + 1 && column == offset - |text| + 1
  {
    var lines := LinesOf(text, true);
    var starts := LineOffsets(lines);
    LinesMakeText(text, true);
    BisectFindsPosition(lines, starts, offset);
    line := Bisect(starts, offset);
    column := offset - starts[line - 1] + 1;
    if offset < |text| {
      PositionMeans(text, lines, offset, line, column);
    }
  }
}
