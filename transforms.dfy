/** The normalisation transforms the razers3 harness attaches to its file
    comparisons, and the choice of transforms by output format. The replace
    and regular-expression transforms belong to the test library; they are
    kept here as opaque records of how they are constructed. */
module Transforms {
  import PairIdColumn

  /** The two path prefixes the harness strips from the program's output:
      the tests directory under the source root, and the scratch directory,
      each followed by the path separator. Their values are host-dependent. */
  datatype PathPrefix = TestsSourceDir | TempDir

  datatype Transform =
    | ReplaceTransform(needle: PathPrefix, replacement: string, right: bool)
    | RegexpReplaceTransform(pattern: string, replacement: string, right: bool, left: bool)
    | PairIdRemoval(remover: PairIdColumn.RemovePairIdColumn)

  /** The output formats, in the order the harness enumerates them; the
      index in this list is the `-of` value used in file names. */
  const OutputFormats: seq<string> := ["razers", "fa", "eland", "gff", "sam", "afg"]

  /** `transforms`: strip both path prefixes from the right-hand file. */
  const PathTransforms: seq<Transform> :=
    [ReplaceTransform(TestsSourceDir, "", true), ReplaceTransform(TempDir, "", true)]

  /** `sam_transforms`: make the VN field of the @PG header canonical on both
      sides (the pattern and replacement are the raw strings of the source). */
  const SamTransforms: seq<Transform> :=
    [RegexpReplaceTransform("\\tVN:[^\\t]*", "\\tVN:VERSION", true, true)]

  /** `razers_transforms`: remove the pair id column, with the default
      settings. */
  const RazersTransforms: seq<Transform> := [PairIdRemoval(PairIdColumn.RemovePairIdColumn())]

  predicate RemovesPairIds(ts: seq<Transform>)
  {
    exists i :: 0 <= i < |ts| && ts[i].PairIdRemoval?
  }

  predicate CanonicalisesVersion(ts: seq<Transform>)
  {
    exists i :: 0 <= i < |ts| && ts[i].RegexpReplaceTransform?
  }

  /** `this_transforms` for an output file with suffix `suffix`: a fresh copy
      of the path transforms, extended for the two formats that need more.
      The shared path-transform list itself is a value and is never changed. */
  function TransformsFor(suffix: string): (ts: seq<Transform>)
    ensures |PathTransforms| <= |ts| <= |PathTransforms| + 1
    ensures ts[..|PathTransforms|] == PathTransforms
    ensures RemovesPairIds(ts) <==> suffix == "razers"
    ensures CanonicalisesVersion(ts) <==> suffix == "sam"
    ensures ts == PathTransforms <==> suffix != "razers" && suffix != "sam"
  {
    var thisTransforms := PathTransforms;
    if suffix == "razers" then
      var ts := thisTransforms + RazersTransforms;
      assert ts[2].PairIdRemoval?;
      ts
    else if suffix == "sam" then
      var ts := thisTransforms + SamTransforms;
      assert ts[2].RegexpReplaceTransform?;
      ts
    else thisTransforms
  }

  /** The table the enumeration of output formats produces, format by
      format. */
  lemma FormatTable()
    ensures TransformsFor(OutputFormats[0]) == PathTransforms + RazersTransforms
    ensures TransformsFor(OutputFormats[4]) == PathTransforms + SamTransforms
    ensures forall k :: 0 <= k < |OutputFormats| && k != 0 && k != 4 ==>
      TransformsFor(OutputFormats[k]) == PathTransforms
  {
  }
}
