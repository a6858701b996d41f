/** The Python string and list built-ins that the pair-id normaliser relies on:
    `str.split` on one separator character, `str.join`, `str.splitlines(True)`
    restricted to '\n' line boundaries, `''.join`, and list slicing with
    Python's index clamping. */
module Text {

  /** Python's `s.split(sep)` for a one-character separator: the pieces
      between separators, in order; never empty ("" splits into [""]). */
  function Split(s: string, sep: char): (parts: seq<string>)
    ensures |parts| >= 1
    ensures forall i :: 0 <= i < |parts| ==> sep !in parts[i]
    decreases |s|
  {
    if s == [] then [""]
    else
      var rest := Split(s[1..], sep);
      if s[0] == sep then [""] + rest
      else [[s[0]] + rest[0]] + rest[1..]
  }

  /** Python's `sep.join(parts)`. */
  function Join(parts: seq<string>, sep: char): string
    decreases |parts|
  {
    if |parts| == 0 then ""
    else if |parts| == 1 then parts[0]
    else parts[0] + [sep] + Join(parts[1..], sep)
  }

  /** Python's `''.join(pieces)`: the pieces, back to back. */
  function Concat(pieces: seq<string>): (r: string)
    ensures |r| == TotalLength(pieces)
    decreases |pieces|
  {
    if pieces == [] then "" else pieces[0] + Concat(pieces[1..])
  }

  /** Python's `s.splitlines(True)` when '\n' is the only line boundary:
      the lines in order, each keeping its terminating '\n'; a last line
      without '\n' is kept as it is; "" has no lines at all. */
  function SplitLines(s: string): (lines: seq<string>)
    ensures s != [] <==> lines != []
    decreases |s|
  {
    if s == [] then []
    else if s[0] == '\n' then [['\n']] + SplitLines(s[1..])
    else
      var rest := SplitLines(s[1..]);
      if rest == [] then [[s[0]]] else [[s[0]] + rest[0]] + rest[1..]
  }

  /** A well-formed piece of `splitlines(True)` output: not empty, and a
      '\n' can only be its last character. */
  predicate IsLine(line: string)
  {
    line != [] && forall j :: 0 <= j < |line| - 1 ==> line[j] != '\n'
  }

  /** True when `s` is empty or ends at a line boundary. */
  predicate EndsAtLineBoundary(s: string)
  {
    s == [] || s[|s| - 1] == '\n'
  }

  /** Python's normalisation of a slice index against a sequence of length
      `n`: a negative index counts from the end, and the result is clamped
      to 0..n. */
  function ClampIndex(i: int, n: nat): (k: nat)
    ensures k <= n
  {
    if i < 0 then (if i + n < 0 then 0 else i + n)
    else if i > n then n
    else i
  }

  /** Python's `s[lo:hi]`: never fails, empty when the clamped bounds cross. */
  function Slice<T>(s: seq<T>, lo: int, hi: int): (r: seq<T>)
    ensures 0 <= lo <= hi <= |s| ==> r == s[lo..hi]
    ensures |r| <= |s|
  {
    var a := ClampIndex(lo, |s|);
    var b := ClampIndex(hi, |s|);
    if a < b then s[a..b] else []
  }

  /** The meaning Python gives to slice bounds outside `0..|s|`: a negative
      bound counts from the end, one still below the start is the start, and
      one past the end is the end; `s[lo:]` is `s[lo:len(s)]`. */
  lemma SliceBounds<T>(s: seq<T>, lo: int, hi: int)
    ensures -|s| <= lo < 0 ==> Slice(s, lo, hi) == Slice(s, lo + |s|, hi)
    ensures lo < -|s| ==> Slice(s, lo, hi) == Slice(s, 0, hi)
    ensures -|s| <= hi < 0 ==> Slice(s, lo, hi) == Slice(s, lo, hi + |s|)
    ensures hi < -|s| ==> Slice(s, lo, hi) == []
    ensures hi > |s| ==> Slice(s, lo, hi) == Slice(s, lo, |s|)
    ensures ClampIndex(lo, |s|) >= ClampIndex(hi, |s|) ==> Slice(s, lo, hi) == []
    ensures SliceFrom(s, lo) == Slice(s, lo, |s|)
  {
  }

  /** Python's `s[lo:]`. */
  function SliceFrom<T>(s: seq<T>, lo: int): (r: seq<T>)
    ensures 0 <= lo <= |s| ==> r == s[lo..]
    ensures lo >= |s| ==> r == []
  {
    s[ClampIndex(lo, |s|)..]
  }

  /** Total length of the pieces. */
  function TotalLength(pieces: seq<string>): nat
  {
    if pieces == [] then 0 else |pieces[0]| + TotalLength(pieces[1..])
  }

  // ---------------------------------------------------------------------
  // Split and Join are inverse to each other.
  // ---------------------------------------------------------------------

  /** Joining the pieces of a split gives back the original string. */
  lemma {:induction false} JoinSplit(s: string, sep: char)
    ensures Join(Split(s, sep), sep) == s
    decreases |s|
  {
    if s != [] {
      var rest := Split(s[1..], sep);
      JoinSplit(s[1..], sep);
      if s[0] == sep {
        assert Split(s, sep) == [""] + rest;
        assert Join([""] + rest, sep) == "" + [sep] + Join(rest, sep);
      } else {
        var parts := [[s[0]] + rest[0]] + rest[1..];
        assert Split(s, sep) == parts;
        if |rest| == 1 {
          assert Join(rest, sep) == rest[0];
        } else {
          assert Join(rest, sep) == rest[0] + [sep] + Join(rest[1..], sep);
          assert parts[1..] == rest[1..];
        }
      }
    }
  }

  /** Splitting a string that starts with a separator-free prefix `p`
      glues `p` to the front of the first piece. */
  lemma {:induction false} SplitPrefix(p: string, t: string, sep: char)
    requires sep !in p
    ensures Split(p + t, sep) == [p + Split(t, sep)[0]] + Split(t, sep)[1..]
    decreases |p|
  {
    var st := Split(t, sep);
    if p == [] {
      assert p + t == t;
      assert p + st[0] == st[0];
      assert st == [st[0]] + st[1..];
    } else {
      SplitPrefix(p[1..], t, sep);
      var rest := Split(p[1..] + t, sep);
      assert rest == [p[1..] + st[0]] + st[1..];
      assert (p + t)[0] == p[0] && (p + t)[1..] == p[1..] + t;
      assert p[0] != sep by { assert p[0] in p; }
      assert Split(p + t, sep) == [[p[0]] + rest[0]] + rest[1..];
      assert [p[0]] + (p[1..] + st[0]) == p + st[0];
    }
  }

  /** Splitting the join of separator-free pieces gives back the pieces. */
  lemma {:induction false} SplitJoin(parts: seq<string>, sep: char)
    requires |parts| >= 1
    requires forall i :: 0 <= i < |parts| ==> sep !in parts[i]
    ensures Split(Join(parts, sep), sep) == parts
    decreases |parts|
  {
    if |parts| == 1 {
      SplitPrefix(parts[0], "", sep);
      assert parts[0] + "" == parts[0];
    } else {
      var tail := Join(parts[1..], sep);
      SplitJoin(parts[1..], sep);
      assert Join(parts, sep) == parts[0] + ([sep] + tail);
      SplitPrefix(parts[0], [sep] + tail, sep);
      assert ([sep] + tail)[0] == sep && ([sep] + tail)[1..] == tail;
      var st := Split([sep] + tail, sep);
      assert st == [""] + parts[1..];
      assert st[0] == "" && st[1..] == parts[1..];
      assert parts[0] + "" == parts[0];
      assert parts == [parts[0]] + parts[1..];
    }
  }

  /** The length of a join: every piece plus one separator between each
      two neighbours. */
  lemma {:induction false} JoinLength(parts: seq<string>, sep: char)
    requires |parts| >= 1
    ensures |Join(parts, sep)| == TotalLength(parts) + |parts| - 1
    decreases |parts|
  {
    if |parts| > 1 {
      JoinLength(parts[1..], sep);
    }
  }

  lemma {:induction false} TotalLengthAppend(a: seq<string>, b: seq<string>)
    ensures TotalLength(a + b) == TotalLength(a) + TotalLength(b)
    decreases |a|
  {
    if a == [] {
      assert a + b == b;
    } else {
      assert (a + b)[0] == a[0] && (a + b)[1..] == a[1..] + b;
      TotalLengthAppend(a[1..], b);
    }
  }

  // ---------------------------------------------------------------------
  // splitlines(True) and ''.join
  // ---------------------------------------------------------------------

  lemma {:induction false} ConcatAppend(a: seq<string>, b: seq<string>)
    ensures Concat(a + b) == Concat(a) + Concat(b)
    decreases |a|
  {
    if a == [] {
      assert a + b == b;
    } else {
      assert (a + b)[0] == a[0] && (a + b)[1..] == a[1..] + b;
      ConcatAppend(a[1..], b);
    }
  }

  /** `''.join(s.splitlines(True)) == s`, and every piece is a line of which
      all but the last end with '\n'. */
  lemma {:induction false} SplitLinesSound(s: string)
    ensures Concat(SplitLines(s)) == s
    ensures forall i :: 0 <= i < |SplitLines(s)| ==> IsLine(SplitLines(s)[i])
    ensures forall i :: 0 <= i < |SplitLines(s)| - 1 ==> EndsAtLineBoundary(SplitLines(s)[i])
  {
    SplitLinesConcat(s);
    SplitLinesAreLines(s);
    SplitLinesBoundaries(s);
  }

  /** Joining the lines gives back the text. */
  lemma {:induction false} SplitLinesConcat(s: string)
    ensures Concat(SplitLines(s)) == s
    decreases |s|
  {
    if s != [] {
      SplitLinesConcat(s[1..]);
      var rest := SplitLines(s[1..]);
      if s[0] != '\n' && rest != [] {
        var lines := [[s[0]] + rest[0]] + rest[1..];
        assert SplitLines(s) == lines;
        assert lines[1..] == rest[1..];
        assert Concat(rest) == rest[0] + Concat(rest[1..]);
      }
    }
  }

  /** Every piece is a line. */
  lemma {:induction false} SplitLinesAreLines(s: string)
    ensures forall i :: 0 <= i < |SplitLines(s)| ==> IsLine(SplitLines(s)[i])
    decreases |s|
  {
    if s != [] {
      SplitLinesAreLines(s[1..]);
      var rest := SplitLines(s[1..]);
      if s[0] != '\n' && rest != [] {
        var lines := [[s[0]] + rest[0]] + rest[1..];
        assert SplitLines(s) == lines;
        forall i | 0 <= i < |lines| ensures IsLine(lines[i]) {
          if i > 0 { assert lines[i] == rest[i]; }
        }
      }
    }
  }

  /** Every piece but the last ends with '\n'. */
  lemma {:induction false} SplitLinesBoundaries(s: string)
    ensures forall i :: 0 <= i < |SplitLines(s)| - 1 ==> EndsAtLineBoundary(SplitLines(s)[i])
    decreases |s|
  {
    if s != [] {
      SplitLinesBoundaries(s[1..]);
      var rest := SplitLines(s[1..]);
      if s[0] != '\n' && rest != [] {
        var lines := [[s[0]] + rest[0]] + rest[1..];
        assert SplitLines(s) == lines;
        forall i | 0 <= i < |lines| - 1 ensures EndsAtLineBoundary(lines[i]) {
          assert i + 1 < |rest|;
          if i > 0 { assert lines[i] == rest[i]; }
        }
      }
    }
  }

  /** Splitting at a line boundary splits the lines: lines are found
      independently on each side of a '\n'. */
  lemma {:induction false} SplitLinesAppend(a: string, b: string)
    requires EndsAtLineBoundary(a)
    ensures SplitLines(a + b) == SplitLines(a) + SplitLines(b)
    decreases |a|
  {
    if a == [] {
      assert a + b == b;
    } else {
      assert (a + b)[0] == a[0] && (a + b)[1..] == a[1..] + b;
      if a[0] == '\n' {
        if |a| > 1 {
          SplitLinesAppend(a[1..], b);
        } else {
          assert a[1..] == [];
          assert a[1..] + b == b;
        }
      } else {
        assert |a| > 1;
        SplitLinesAppend(a[1..], b);
        var la := SplitLines(a[1..]);
        assert la != [];
        assert SplitLines(a + b) == [[a[0]] + la[0]] + (la[1..] + SplitLines(b));
        assert SplitLines(a) == [[a[0]] + la[0]] + la[1..];
      }
    }
  }

  // ---------------------------------------------------------------------
  // Facts used to follow single characters through split and join.
  // ---------------------------------------------------------------------

  /** The last piece of a join is preceded by one separator. */
  lemma {:induction false} JoinSnoc(parts: seq<string>, sep: char)
    requires |parts| >= 2
    ensures Join(parts, sep) == Join(parts[..|parts| - 1], sep) + [sep] + parts[|parts| - 1]
    decreases |parts|
  {
    if |parts| > 2 {
      JoinSnoc(parts[1..], sep);
      assert parts[1..][..|parts| - 2] == parts[..|parts| - 1][1..];
    }
  }

  /** A character found in no piece, other than the separator, is not in
      the join either. */
  lemma {:induction false} JoinAvoids(parts: seq<string>, sep: char, c: char)
    requires c != sep
    requires forall i :: 0 <= i < |parts| ==> c !in parts[i]
    ensures c !in Join(parts, sep)
    decreases |parts|
  {
    if |parts| > 1 {
      JoinAvoids(parts[1..], sep, c);
    }
  }

  /** A character absent from a string is absent from every piece of its
      split. */
  lemma {:induction false} SplitAvoids(s: string, sep: char, c: char)
    requires c !in s
    ensures forall i :: 0 <= i < |Split(s, sep)| ==> c !in Split(s, sep)[i]
    decreases |s|
  {
    if s != [] {
      assert c !in s[1..] by {
        forall j | 0 <= j < |s| - 1 ensures s[1..][j] != c { assert s[1..][j] == s[j + 1]; }
      }
      SplitAvoids(s[1..], sep, c);
      assert s[0] != c by { assert s[0] in s; }
    }
  }

  /** A string without line boundaries is one line (or none, when empty). */
  lemma {:induction false} SplitLinesSingle(s: string)
    requires s != []
    requires '\n' !in s
    ensures SplitLines(s) == [s]
    decreases |s|
  {
    assert s[0] != '\n' by { assert s[0] in s; }
    if |s| > 1 {
      assert '\n' !in s[1..] by {
        forall j | 0 <= j < |s| - 1 ensures s[1..][j] != '\n' { assert s[1..][j] == s[j + 1]; }
      }
      SplitLinesSingle(s[1..]);
      assert s == [s[0]] + s[1..];
    } else {
      assert s == [s[0]];
      assert s[1..] == [];
    }
  }
}
