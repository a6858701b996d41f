/** The `RemovePairIdColumn` transformation of the razers3 test harness: in
    RazerS output, a line with more than `minCols` tab-separated fields loses
    the field at index `colNo`; every other line passes through as it is.
    Only '\n' is treated as a line boundary. */
module PairIdColumn {
  import opened Text

  /** The transformation's two settings, fixed when it is constructed; the
      defaults are those of `__init__`. */
  datatype RemovePairIdColumn = RemovePairIdColumn(colNo: int := 8, minCols: int := 8)

  /** `line.split('\t')` */
  function Fields(line: string): seq<string>
  {
    Split(line, '\t')
  }

  /** `cols[0:col_no] + cols[col_no + 1:]`, with Python's slicing. */
  function DropField(cols: seq<string>, colNo: int): (r: seq<string>)
    ensures 0 <= colNo < |cols| ==> r == cols[..colNo] + cols[colNo + 1..]
    ensures colNo >= |cols| ==> r == cols
  {
    Slice(cols, 0, colNo) + SliceFrom(cols, colNo + 1)
  }

  /** What one line (with its '\n', if any) becomes. */
  function TransformLine(t: RemovePairIdColumn, line: string): string
  {
    var cols := Fields(line);
    Join(if |cols| > t.minCols then DropField(cols, t.colNo) else cols, '\t')
  }

  /** True when `TransformLine` takes a field out of `line`. */
  predicate LosesField(t: RemovePairIdColumn, line: string)
  {
    t.minCols < |Fields(line)| && 0 <= t.colNo < |Fields(line)|
  }

  /** Each line transformed on its own, in order. */
  function TransformLines(t: RemovePairIdColumn, lines: seq<string>): (out: seq<string>)
    ensures |out| == |lines|
  {
    if lines == [] then [] else [TransformLine(t, lines[0])] + TransformLines(t, lines[1..])
  }

  /** Transforming a concatenation of line lists transforms each part. */
  lemma {:induction false} TransformLinesAppend(t: RemovePairIdColumn, a: seq<string>, b: seq<string>)
    ensures TransformLines(t, a + b) == TransformLines(t, a) + TransformLines(t, b)
    decreases |a|
  {
    if a == [] {
      assert a + b == b;
    } else {
      assert (a + b)[0] == a[0] && (a + b)[1..] == a[1..] + b;
      TransformLinesAppend(t, a[1..], b);
    }
  }

  /** Taking one more input line adds its transformation at the end. */
  lemma LinesSnoc(t: RemovePairIdColumn, lines: seq<string>, i: nat)
    requires i < |lines|
    ensures TransformLines(t, lines[..i + 1]) == TransformLines(t, lines[..i]) + [TransformLine(t, lines[i])]
  {
    assert lines[..i + 1] == lines[..i] + [lines[i]];
    TransformLinesAppend(t, lines[..i], [lines[i]]);
    assert TransformLines(t, [lines[i]]) == [TransformLine(t, lines[i])] + TransformLines(t, []);
  }

  /** The `i`-th output line is the `i`-th input line transformed. */
  lemma {:induction false} TransformLinesAt(t: RemovePairIdColumn, lines: seq<string>, i: nat)
    requires i < |lines|
    ensures TransformLines(t, lines)[i] == TransformLine(t, lines[i])
    decreases i
  {
    if i > 0 {
      TransformLinesAt(t, lines[1..], i - 1);
    }
  }

  /** The text `apply` returns: every line transformed, in order, concatenated. */
  function Normalize(t: RemovePairIdColumn, text: string): string
  {
    Concat(TransformLines(t, SplitLines(text)))
  }

  /** `RemovePairIdColumn.apply`: the side being normalised (`isLeft`) plays
      no part in the result. */
  method Apply(t: RemovePairIdColumn, text: string, isLeft: bool) returns (result: string)
    ensures result == Normalize(t, text)
  {
    var lines := SplitLines(text);
    var lines2: seq<string> := [];
    for i := 0 to |lines|
      invariant lines2 == TransformLines(t, lines[..i])
    {
      var cols := Fields(lines[i]);
      if |cols| > t.minCols {
        cols := DropField(cols, t.colNo);
      }
      var piece := Join(cols, '\t');
      LinesSnoc(t, lines, i);
      lines2 := lines2 + [piece];
    }
    assert lines[..|lines|] == lines;
    result := Concat(lines2);
  }

  // ---------------------------------------------------------------------
  // Pass-through
  // ---------------------------------------------------------------------

  /** A line with at most `minCols` fields comes out exactly as it went in. */
  lemma ShortLineUnchanged(t: RemovePairIdColumn, line: string)
    requires |Fields(line)| <= t.minCols
    ensures TransformLine(t, line) == line
  {
    JoinSplit(line, '\t');
  }

  /** A line whose `colNo` lies beyond its last field is kept whole, however
      many fields it has (Python's slices clamp the index). */
  lemma ColumnBeyondLineKept(t: RemovePairIdColumn, line: string)
    requires t.colNo >= |Fields(line)|
    ensures TransformLine(t, line) == line
  {
    JoinSplit(line, '\t');
  }

  /** When no line has more than `minCols` fields, the text is returned
      exactly. */
  lemma NarrowTextUnchanged(t: RemovePairIdColumn, text: string)
    requires forall i :: 0 <= i < |SplitLines(text)| ==> |Fields(SplitLines(text)[i])| <= t.minCols
    ensures Normalize(t, text) == text
  {
    var lines := SplitLines(text);
    forall i | 0 <= i < |lines| ensures TransformLines(t, lines)[i] == lines[i] {
      ShortLineUnchanged(t, lines[i]);
      TransformLinesAt(t, lines, i);
    }
    assert TransformLines(t, lines) == lines;
    SplitLinesSound(text);
  }

  // ---------------------------------------------------------------------
  // Removal
  // ---------------------------------------------------------------------

  /** A line with more than `minCols` fields, and a field at index `colNo`,
      comes out with exactly that field taken away and the others in their
      order. */
  lemma WideLineLosesField(t: RemovePairIdColumn, line: string)
    requires LosesField(t, line)
    requires |Fields(line)| >= 2
    ensures TransformLine(t, line) == Join(Fields(line)[..t.colNo] + Fields(line)[t.colNo + 1..], '\t')
    ensures Fields(TransformLine(t, line)) == Fields(line)[..t.colNo] + Fields(line)[t.colNo + 1..]
    ensures |Fields(TransformLine(t, line))| == |Fields(line)| - 1
  {
    var cols := Fields(line);
    var kept := cols[..t.colNo] + cols[t.colNo + 1..];
    forall i | 0 <= i < |kept| ensures '\t' !in kept[i] {
      if i < t.colNo { assert kept[i] == cols[i]; } else { assert kept[i] == cols[i + 1]; }
    }
    SplitJoin(kept, '\t');
  }

  /** With the defaults, a '\n'-terminated line of exactly `colNo + 1`
      fields loses its last field, and the '\n' that field carried goes
      with it: what is left is the line up to the last tab. */
  lemma LastFieldTakesNewline(t: RemovePairIdColumn, line: string)
    requires IsLine(line) && line[|line| - 1] == '\n'
    requires |Fields(line)| == t.colNo + 1 >= 2
    requires t.minCols < |Fields(line)|
    ensures TransformLine(t, line) + ['\t'] + Fields(line)[t.colNo] == line
    ensures '\n' !in TransformLine(t, line)
  {
    var cols := Fields(line);
    var rest := TransformLine(t, line);
    assert DropField(cols, t.colNo) == cols[..t.colNo];
    JoinSnoc(cols, '\t');
    JoinSplit(line, '\t');
    assert line == rest + ['\t'] + cols[t.colNo];
    forall j | 0 <= j < |rest| ensures rest[j] != '\n' {
      assert rest[j] == line[j];
    }
  }

  // ---------------------------------------------------------------------
  // Lines are independent
  // ---------------------------------------------------------------------

  /** Cutting the text at a line boundary cuts the output at the matching
      place: each line's output depends on that line alone, and the pieces
      are concatenated in input order. */
  lemma LinesIndependent(t: RemovePairIdColumn, a: string, b: string)
    requires EndsAtLineBoundary(a)
    ensures Normalize(t, a + b) == Normalize(t, a) + Normalize(t, b)
  {
    var la, lb := SplitLines(a), SplitLines(b);
    SplitLinesAppend(a, b);
    TransformLinesAppend(t, la, lb);
    ConcatAppend(TransformLines(t, la), TransformLines(t, lb));
  }

  // ---------------------------------------------------------------------
  // Length
  // ---------------------------------------------------------------------

  /** For a non-negative `colNo`, a non-empty line never grows, and it
      shrinks exactly when a field is taken out of it. */
  lemma {:induction false} LineLength(t: RemovePairIdColumn, line: string)
    requires 0 <= t.colNo
    requires line != []
    ensures |TransformLine(t, line)| <= |line|
    ensures |TransformLine(t, line)| < |line| <==> LosesField(t, line)
  {
    var cols := Fields(line);
    JoinSplit(line, '\t');
    JoinLength(cols, '\t');
    if LosesField(t, line) {
      var k := t.colNo;
      var kept := cols[..k] + cols[k + 1..];
      assert cols == cols[..k] + [cols[k]] + cols[k + 1..];
      TotalLengthAppend(cols[..k] + [cols[k]], cols[k + 1..]);
      TotalLengthAppend(cols[..k], [cols[k]]);
      TotalLengthAppend(cols[..k], cols[k + 1..]);
      assert TotalLength([cols[k]]) == |cols[k]|;
      if |kept| >= 1 {
        JoinLength(kept, '\t');
      }
    } else if |cols| > t.minCols {
      assert DropField(cols, t.colNo) == cols;
    }
  }

  lemma {:induction false} LinesLength(t: RemovePairIdColumn, lines: seq<string>)
    requires 0 <= t.colNo
    requires forall i :: 0 <= i < |lines| ==> lines[i] != []
    ensures |Concat(TransformLines(t, lines))| <= |Concat(lines)|
    ensures |Concat(TransformLines(t, lines))| < |Concat(lines)|
        <==> exists i :: 0 <= i < |lines| && LosesField(t, lines[i])
    decreases |lines|
  {
    if lines != [] {
      LineLength(t, lines[0]);
      LinesLength(t, lines[1..]);
      if exists i :: 0 <= i < |lines| && LosesField(t, lines[i]) {
        var i :| 0 <= i < |lines| && LosesField(t, lines[i]);
        if i > 0 { assert LosesField(t, lines[1..][i - 1]); }
      }
      if exists i :: 0 <= i < |lines[1..]| && LosesField(t, lines[1..][i]) {
        var i :| 0 <= i < |lines[1..]| && LosesField(t, lines[1..][i]);
        assert LosesField(t, lines[i + 1]);
      }
    }
  }

  /** For a non-negative `colNo`, the output is never longer than the input. */
  lemma NeverLonger(t: RemovePairIdColumn, text: string)
    requires 0 <= t.colNo
    ensures |Normalize(t, text)| <= |text|
  {
    SplitLinesSound(text);
    LinesLength(t, SplitLines(text));
  }

  /** With `0 <= colNo <= minCols` (the defaults among them), the output is
      strictly shorter exactly when some line has more than `minCols`
      fields. */
  lemma ShorterIffWideLine(t: RemovePairIdColumn, text: string)
    requires 0 <= t.colNo <= t.minCols
    ensures |Normalize(t, text)| < |text|
        <==> exists i :: 0 <= i < |SplitLines(text)| && |Fields(SplitLines(text)[i])| > t.minCols
  {
    var lines := SplitLines(text);
    SplitLinesSound(text);
    LinesLength(t, lines);
    forall i | 0 <= i < |lines| ensures LosesField(t, lines[i]) <==> |Fields(lines[i])| > t.minCols {
    }
  }

  // ---------------------------------------------------------------------
  // Not idempotent
  // ---------------------------------------------------------------------

  /** A line with `minCols + 2` or more fields loses a second field when
      the transformation is applied again, so the transformation has no
      fixed point on such lines. */
  lemma SecondPassRemovesAnother(t: RemovePairIdColumn, line: string)
    requires 0 <= t.colNo <= t.minCols && 1 <= t.minCols
    requires |Fields(line)| >= t.minCols + 2
    ensures |Fields(TransformLine(t, TransformLine(t, line)))| == |Fields(line)| - 2
    ensures TransformLine(t, TransformLine(t, line)) != TransformLine(t, line)
  {
    WideLineLosesField(t, line);
    WideLineLosesField(t, TransformLine(t, line));
  }

  /** The same at the level of whole texts: applying the transformation to
      its own output changes a text that is one line (without '\n') of
      `minCols + 2` or more fields. */
  lemma NormalizeNotIdempotent(t: RemovePairIdColumn, line: string)
    requires 0 <= t.colNo <= t.minCols && 1 <= t.minCols
    requires '\n' !in line
    requires |Fields(line)| >= t.minCols + 2
    ensures Normalize(t, Normalize(t, line)) != Normalize(t, line)
  {
    var once := TransformLine(t, line);
    SplitLinesSingle(line);
    assert Normalize(t, line) == once by {
      assert TransformLines(t, [line]) == [once] + TransformLines(t, []);
      assert Concat([once]) == once + Concat([]);
    }
    var cols := Fields(line);
    WideLineLosesField(t, line);
    forall i | 0 <= i < |cols| ensures '\n' !in cols[i] {
      SplitAvoids(line, '\t', '\n');
    }
    var kept := cols[..t.colNo] + cols[t.colNo + 1..];
    forall i | 0 <= i < |kept| ensures '\n' !in kept[i] {
      if i < t.colNo { assert kept[i] == cols[i]; } else { assert kept[i] == cols[i + 1]; }
    }
    JoinAvoids(kept, '\t', '\n');
    assert once != [] by { assert Fields([]) == [""]; }
    SplitLinesSingle(once);
    var twice := TransformLine(t, once);
    assert Normalize(t, once) == twice by {
      assert TransformLines(t, [once]) == [twice] + TransformLines(t, []);
      assert Concat([twice]) == twice + Concat([]);
    }
    SecondPassRemovesAnother(t, line);
  }
}
