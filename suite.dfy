/** The list of test configurations the razers3 harness builds before it
    runs anything: for single-end and then paired-end reads, for each read
    length, one case per option setting (defaults, indels, strand, identity
    rate, output format, sort order). Paths handed out by the test library's
    path helper are kept symbolic: `InFile(name)` for a fixture under the
    source tree, `OutFile(name)` for a file in the scratch directory. */
module TestSuite {
  import opened Transforms

  datatype Pairing = SingleEnd | PairedEnd

  /** One setting of the option axes within a read length. */
  datatype Variant =
    | Default
    | Indels
    | Strand(flag: string)
    | Identity(rate: nat)
    | Format(index: nat, suffix: string)
    | SortOrder(order: nat)

  datatype FilePath = InFile(name: string) | OutFile(name: string)

  datatype Arg = Flag(text: string) | PathArg(path: FilePath)

  /** An (expected, actual, transforms) entry of `to_diff`; an entry written
      without a transform list has no transforms. */
  datatype Comparison = Comparison(expected: FilePath, actual: FilePath, transforms: seq<Transform>)

  /** `app_tests.TestConf`: program, stdout redirection, arguments and the
      files to compare. */
  datatype TestConf = TestConf(program: string, redirStdout: FilePath, args: seq<Arg>, toDiff: seq<Comparison>)

  // ---------------------------------------------------------------------
  // The axes
  // ---------------------------------------------------------------------

  const ReadLengths: seq<nat> := [36, 100]
  const Strands: seq<string> := ["-r", "-f"]
  /** `range(90, 101)` */
  const Identities: seq<nat> := seq(101 - 90, i => 90 + i)
  const SortOrders: seq<nat> := [0, 1]

  /** The variants in the order the harness appends them, per read length. */
  function Variants(): seq<Variant>
  {
    [Default, Indels] + StrandVariants() + IdentityVariants() + FormatVariants() + SortVariants()
  }

  function StrandVariants(): seq<Variant>
  {
    seq(|Strands|, k requires 0 <= k < |Strands| => Strand(Strands[k]))
  }

  function IdentityVariants(): seq<Variant>
  {
    seq(|Identities|, k requires 0 <= k < |Identities| => Identity(Identities[k]))
  }

  /** `enumerate(['razers', 'fa', 'eland', 'gff', 'sam', 'afg'])` */
  function FormatVariants(): seq<Variant>
  {
    seq(|OutputFormats|, k requires 0 <= k < |OutputFormats| => Format(k, OutputFormats[k]))
  }

  function SortVariants(): seq<Variant>
  {
    seq(|SortOrders|, k requires 0 <= k < |SortOrders| => SortOrder(SortOrders[k]))
  }

  /** Number of cases the harness builds in all. */
  const CaseCount: nat :=
    2 * |ReadLengths| * (2 + |Strands| + |Identities| + |OutputFormats| + |SortOrders|)

  // ---------------------------------------------------------------------
  // One case
  // ---------------------------------------------------------------------

  function Digit(d: nat): char
    requires d < 10
  {
    "0123456789"[d]
  }

  /** `'%d' % n` and `str(n)` for a natural number. */
  function Decimal(n: nat): (s: string)
    ensures |s| >= 1
    ensures forall i :: 0 <= i < |s| ==> '0' <= s[i] <= '9'
  {
    if n < 10 then [Digit(n)] else Decimal(n / 10) + [Digit(n % 10)]
  }

  /** The number a string of decimal digits denotes, most significant
      digit first. */
  function DigitsValue(s: string): int
    decreases |s|
  {
    if s == [] then 0 else 10 * DigitsValue(s[..|s| - 1]) + (s[|s| - 1] as int - '0' as int)
  }

  lemma DigitValue(d: nat)
    requires d < 10
    ensures Digit(d) as int - '0' as int == d
  {
  }

  /** `'%d' % n` is the decimal representation of `n`: its digits denote
      `n`, and it has no leading zero unless it is "0" itself. */
  lemma {:induction false} DecimalValue(n: nat)
    ensures DigitsValue(Decimal(n)) == n
    ensures |Decimal(n)| == 1 || Decimal(n)[0] != '0'
    decreases n
  {
    var s := Decimal(n);
    if n < 10 {
      DigitValue(n);
      assert s[..0] == [];
    } else {
      DecimalValue(n / 10);
      DigitValue(n % 10);
      var h := Decimal(n / 10);
      assert s == h + [Digit(n % 10)];
      assert s[..|s| - 1] == h;
      assert s[0] == h[0];
      if |h| == 1 {
        assert h == [Digit(n / 10)];
        DigitValue(n / 10);
      }
    }
  }

  /** The part of the file names that tells the options apart. The paired-end
      "Allow indels" case reuses the default case's names and passes no
      `-ng`. */
  function Tag(p: Pairing, v: Variant): string
  {
    match v
    case Default => ""
    case Indels => if p == SingleEnd then "-ng" else ""
    case Strand(o) => o
    case Identity(i) => "-i" + Decimal(i)
    case Format(of, _) => "-of" + Decimal(of)
    case SortOrder(so) => "-so" + Decimal(so)
  }

  /** The options placed before the input files. */
  function Options(p: Pairing, v: Variant): seq<Arg>
  {
    match v
    case Default => []
    case Indels => if p == SingleEnd then [Flag("-ng")] else []
    case Strand(o) => [Flag(o)]
    case Identity(i) => [Flag("-i"), Flag(Decimal(i))]
    case Format(_, _) => []
    case SortOrder(so) => [Flag("-so"), Flag(Decimal(so))]
  }

  function Stem(p: Pairing, rl: nat, v: Variant): string
  {
    (if p == SingleEnd then "se-adeno-reads" + Decimal(rl) + "_1"
     else "pe-adeno-reads" + Decimal(rl) + "_2") + Tag(p, v)
  }

  /** The genome, then the reads (two files for paired-end). */
  function Inputs(p: Pairing, rl: nat): seq<Arg>
  {
    [PathArg(InFile("adeno-genome.fa")), PathArg(InFile("adeno-reads" + Decimal(rl) + "_1.fa"))]
    + (if p == PairedEnd then [PathArg(InFile("adeno-reads" + Decimal(rl) + "_2.fa"))] else [])
  }

  function OutputSuffix(v: Variant): string
  {
    if v.Format? then v.suffix else "razers"
  }

  /** Transforms for the output-file comparison: the per-format list for the
      format cases, `razers_transforms` for the other paired-end cases, none
      for the other single-end cases. */
  function OutputTransforms(p: Pairing, v: Variant): (ts: seq<Transform>)
    ensures RemovesPairIds(ts) <==> (p == PairedEnd && !v.Format?) || (v.Format? && v.suffix == "razers")
    ensures CanonicalisesVersion(ts) <==> v.Format? && v.suffix == "sam"
    ensures v.Format? ==> |PathTransforms| <= |ts| && ts[..|PathTransforms|] == PathTransforms
    ensures v.Format? ==> |ts| <= |PathTransforms| + 1
    ensures v.Format? ==> (ts == PathTransforms <==> v.suffix != "razers" && v.suffix != "sam")
    ensures !v.Format? ==> |ts| <= 1
    ensures p == SingleEnd && !v.Format? ==> ts == []
  {
    assert RemovesPairIds(RazersTransforms) by { assert RazersTransforms[0].PairIdRemoval?; }
    if v.Format? then TransformsFor(v.suffix)
    else if p == PairedEnd then RazersTransforms
    else []
  }

  /** Transforms for the stdout comparison: only the format cases have any;
      single-end uses the path transforms, paired-end the per-format list. */
  function StdoutTransforms(p: Pairing, v: Variant): (ts: seq<Transform>)
    ensures !v.Format? ==> ts == []
    ensures v.Format? ==> |PathTransforms| <= |ts| && ts[..|PathTransforms|] == PathTransforms
    ensures RemovesPairIds(ts) <==> p == PairedEnd && v.Format? && v.suffix == "razers"
    ensures CanonicalisesVersion(ts) <==> p == PairedEnd && v.Format? && v.suffix == "sam"
    ensures v.Format? ==> |ts| <= |PathTransforms| + 1
    ensures p == SingleEnd && v.Format? ==> ts == PathTransforms
    ensures p == PairedEnd && v.Format? ==> ts == OutputTransforms(p, v)
  {
    assert !RemovesPairIds(PathTransforms) && !CanonicalisesVersion(PathTransforms);
    if !v.Format? then []
    else if p == PairedEnd then TransformsFor(v.suffix)
    else PathTransforms
  }

  /** The `TestConf` one iteration of the harness appends. */
  function MakeConf(program: string, p: Pairing, rl: nat, v: Variant): TestConf
  {
    var stem := Stem(p, rl, v);
    var output := stem + "." + OutputSuffix(v);
    var stdout := stem + ".stdout";
    TestConf(
      program,
      OutFile(stdout),
      Options(p, v) + Inputs(p, rl) + [Flag("-o"), PathArg(OutFile(output))],
      [Comparison(InFile(output), OutFile(output), OutputTransforms(p, v)),
       Comparison(InFile(stdout), OutFile(stdout), StdoutTransforms(p, v))])
  }

  /** Every case compares two files: the output written after `-o`, then the
      redirected stdout; each golden fixture against the scratch file of the
      same name. The pair-id column is removed from the output file exactly
      for the paired-end cases other than the format cases and for the RazerS
      format; from stdout only for the paired-end RazerS format case. The
      version string is made canonical only for the SAM format. */
  lemma ConfShape(program: string, p: Pairing, rl: nat, v: Variant)
    ensures var c := MakeConf(program, p, rl, v);
      && c.program == program && |c.toDiff| == 2
      && c.redirStdout == c.toDiff[1].actual
      && |c.args| >= 2 && c.args[|c.args| - 2..] == [Flag("-o"), PathArg(c.toDiff[0].actual)]
      && (forall j :: 0 <= j < |c.toDiff| ==>
            c.toDiff[j].expected.InFile? && c.toDiff[j].actual.OutFile? &&
            c.toDiff[j].expected.name == c.toDiff[j].actual.name)
      && (RemovesPairIds(c.toDiff[0].transforms) <==>
            (p == PairedEnd && !v.Format?) || (v.Format? && v.suffix == "razers"))
      && (RemovesPairIds(c.toDiff[1].transforms) <==>
            p == PairedEnd && v.Format? && v.suffix == "razers")
      && (CanonicalisesVersion(c.toDiff[0].transforms) <==> v.Format? && v.suffix == "sam")
  {
  }

  // ---------------------------------------------------------------------
  // The whole list
  // ---------------------------------------------------------------------

  /** One case per variant, in order. */
  function CasesOf(program: string, p: Pairing, rl: nat, vs: seq<Variant>): (cs: seq<TestConf>)
    ensures |cs| == |vs|
  {
    if vs == [] then [] else [MakeConf(program, p, rl, vs[0])] + CasesOf(program, p, rl, vs[1..])
  }

  /** The cases of one read length. */
  function ReadLengthCases(program: string, p: Pairing, rl: nat): seq<TestConf>
  {
    CasesOf(program, p, rl, Variants())
  }

  /** The cases of one pairing mode, read length by read length. */
  function PairingCases(program: string, p: Pairing, rls: seq<nat>): seq<TestConf>
  {
    if rls == [] then []
    else PairingCases(program, p, rls[..|rls| - 1]) + ReadLengthCases(program, p, rls[|rls| - 1])
  }

  /** `conf_list`: single-end cases, then paired-end cases. */
  function Suite(program: string): seq<TestConf>
  {
    PairingCases(program, SingleEnd, ReadLengths) + PairingCases(program, PairedEnd, ReadLengths)
  }

  lemma {:induction false} CasesOfSnoc(program: string, p: Pairing, rl: nat, vs: seq<Variant>, v: Variant)
    ensures CasesOf(program, p, rl, vs + [v]) == CasesOf(program, p, rl, vs) + [MakeConf(program, p, rl, v)]
    decreases |vs|
  {
    if vs == [] {
      assert [] + [v] == [v];
    } else {
      assert (vs + [v])[0] == vs[0] && (vs + [v])[1..] == vs[1..] + [v];
      CasesOfSnoc(program, p, rl, vs[1..], v);
    }
  }

  /** The `k`-th case built from a list of variants is the case of its
      `k`-th variant. */
  lemma {:induction false} CasesOfAt(program: string, p: Pairing, rl: nat, vs: seq<Variant>, k: nat)
    requires k < |vs|
    ensures CasesOf(program, p, rl, vs)[k] == MakeConf(program, p, rl, vs[k])
    decreases |vs|
  {
    if k > 0 {
      CasesOfAt(program, p, rl, vs[1..], k - 1);
    }
  }

  lemma {:induction false} CasesOfAppend(program: string, p: Pairing, rl: nat, a: seq<Variant>, b: seq<Variant>)
    ensures CasesOf(program, p, rl, a + b) == CasesOf(program, p, rl, a) + CasesOf(program, p, rl, b)
    decreases |a|
  {
    if a == [] {
      assert a + b == b;
    } else {
      assert (a + b)[0] == a[0] && (a + b)[1..] == a[1..] + b;
      CasesOfAppend(program, p, rl, a[1..], b);
    }
  }

  /** "Compute forward/reverse matches only": one case per strand flag. */
  method AppendStrandCases(program: string, p: Pairing, rl: nat, confList: seq<TestConf>)
    returns (out: seq<TestConf>)
    ensures out == confList + CasesOf(program, p, rl, StrandVariants())
  {
    out := confList;
    for k := 0 to |Strands|
      invariant out == confList + CasesOf(program, p, rl, StrandVariants()[..k])
    {
      var o := Strands[k];
      assert StrandVariants()[k] == Strand(o);
      CasesOfStep(program, p, rl, StrandVariants(), k);
      out := out + [MakeConf(program, p, rl, Strand(o))];
    }
    assert StrandVariants()[..|Strands|] == StrandVariants();
  }

  /** "Compute with different identity rates": one case per rate in
      `range(90, 101)`. */
  method AppendIdentityCases(program: string, p: Pairing, rl: nat, confList: seq<TestConf>)
    returns (out: seq<TestConf>)
    ensures out == confList + CasesOf(program, p, rl, IdentityVariants())
  {
    out := confList;
    for k := 0 to |Identities|
      invariant out == confList + CasesOf(program, p, rl, IdentityVariants()[..k])
    {
      var i := Identities[k];
      assert IdentityVariants()[k] == Identity(i);
      CasesOfStep(program, p, rl, IdentityVariants(), k);
      out := out + [MakeConf(program, p, rl, Identity(i))];
    }
    assert IdentityVariants()[..|Identities|] == IdentityVariants();
  }

  /** Taking one more variant of `vs` appends one more case. */
  lemma CasesOfStep(program: string, p: Pairing, rl: nat, vs: seq<Variant>, k: nat)
    requires k < |vs|
    ensures CasesOf(program, p, rl, vs[..k + 1]) == CasesOf(program, p, rl, vs[..k]) + [MakeConf(program, p, rl, vs[k])]
  {
    assert vs[..k + 1] == vs[..k] + [vs[k]];
    CasesOfSnoc(program, p, rl, vs[..k], vs[k]);
  }

  /** "Compute with different output formats": one case per format, numbered
      by its position. */
  method AppendFormatCases(program: string, p: Pairing, rl: nat, confList: seq<TestConf>)
    returns (out: seq<TestConf>)
    ensures out == confList + CasesOf(program, p, rl, FormatVariants())
  {
    out := confList;
    for of := 0 to |OutputFormats|
      invariant out == confList + CasesOf(program, p, rl, FormatVariants()[..of])
    {
      var suffix := OutputFormats[of];
      assert FormatVariants()[of] == Format(of, suffix);
      CasesOfStep(program, p, rl, FormatVariants(), of);
      out := out + [MakeConf(program, p, rl, Format(of, suffix))];
    }
    assert FormatVariants()[..|OutputFormats|] == FormatVariants();
  }

  /** "Compute with different sort orders": one case per sort order. */
  method AppendSortCases(program: string, p: Pairing, rl: nat, confList: seq<TestConf>)
    returns (out: seq<TestConf>)
    ensures out == confList + CasesOf(program, p, rl, SortVariants())
  {
    out := confList;
    for k := 0 to |SortOrders|
      invariant out == confList + CasesOf(program, p, rl, SortVariants()[..k])
    {
      var so := SortOrders[k];
      assert SortVariants()[k] == SortOrder(so);
      CasesOfStep(program, p, rl, SortVariants(), k);
      out := out + [MakeConf(program, p, rl, SortOrder(so))];
    }
    assert SortVariants()[..|SortOrders|] == SortVariants();
  }

  lemma DefaultIndelsCases(program: string, p: Pairing, rl: nat)
    ensures CasesOf(program, p, rl, [Default, Indels])
         == [MakeConf(program, p, rl, Default), MakeConf(program, p, rl, Indels)]
  {
  }

  /** The cases of one read length, group by group. */
  lemma {:induction false} ReadLengthCasesGroups(program: string, p: Pairing, rl: nat)
    ensures ReadLengthCases(program, p, rl)
         == [MakeConf(program, p, rl, Default), MakeConf(program, p, rl, Indels)]
            + CasesOf(program, p, rl, StrandVariants())
            + CasesOf(program, p, rl, IdentityVariants())
            + CasesOf(program, p, rl, FormatVariants())
            + CasesOf(program, p, rl, SortVariants())
  {
    var d0 := [Default, Indels];
    var d1 := d0 + StrandVariants();
    var d2 := d1 + IdentityVariants();
    var d3 := d2 + FormatVariants();
    DefaultIndelsCases(program, p, rl);
    CasesOfAppend(program, p, rl, d0, StrandVariants());
    CasesOfAppend(program, p, rl, d1, IdentityVariants());
    CasesOfAppend(program, p, rl, d2, FormatVariants());
    CasesOfAppend(program, p, rl, d3, SortVariants());
    assert d3 + SortVariants() == Variants();
  }

  lemma AppendAssoc<T>(a: seq<T>, b: seq<T>, c: seq<T>)
    ensures a + b + c == a + (b + c)
  {
  }

  /** Appends the cases of one read length, in the order of the harness:
      defaults, indels, strands, identity rates, formats, sort orders. */
  method AppendReadLengthCases(program: string, p: Pairing, rl: nat, confList: seq<TestConf>)
    returns (out: seq<TestConf>)
    ensures out == confList + ReadLengthCases(program, p, rl)
  {
    // Run with default options.
    out := confList + [MakeConf(program, p, rl, Default)];
    // Allow indels.
    out := out + [MakeConf(program, p, rl, Indels)];
    ghost var added := [MakeConf(program, p, rl, Default), MakeConf(program, p, rl, Indels)];
    assert out == confList + added;
    out := AppendStrandCases(program, p, rl, out);
    AppendAssoc(confList, added, CasesOf(program, p, rl, StrandVariants()));
    added := added + CasesOf(program, p, rl, StrandVariants());
    out := AppendIdentityCases(program, p, rl, out);
    AppendAssoc(confList, added, CasesOf(program, p, rl, IdentityVariants()));
    added := added + CasesOf(program, p, rl, IdentityVariants());
    out := AppendFormatCases(program, p, rl, out);
    AppendAssoc(confList, added, CasesOf(program, p, rl, FormatVariants()));
    added := added + CasesOf(program, p, rl, FormatVariants());
    out := AppendSortCases(program, p, rl, out);
    AppendAssoc(confList, added, CasesOf(program, p, rl, SortVariants()));
    added := added + CasesOf(program, p, rl, SortVariants());
    ReadLengthCasesGroups(program, p, rl);
  }

  /** One of the two outer loops of the harness: every read length, for
      one pairing mode. */
  method AppendPairingCases(program: string, p: Pairing, confList: seq<TestConf>)
    returns (out: seq<TestConf>)
    ensures out == confList + PairingCases(program, p, ReadLengths)
  {
    out := confList;
    for r := 0 to |ReadLengths|
      invariant out == confList + PairingCases(program, p, ReadLengths[..r])
    {
      assert ReadLengths[..r + 1][..r] == ReadLengths[..r];
      AppendAssoc(confList, PairingCases(program, p, ReadLengths[..r]), ReadLengthCases(program, p, ReadLengths[r]));
      out := AppendReadLengthCases(program, p, ReadLengths[r], out);
    }
    assert ReadLengths[..|ReadLengths|] == ReadLengths;
  }

  /** Builds `conf_list`: the single-end loop over read lengths, then the
      paired-end one. */
  method BuildConfList(program: string) returns (confList: seq<TestConf>)
    ensures confList == Suite(program)
    ensures |confList| == CaseCount == 92
  {
    confList := AppendPairingCases(program, SingleEnd, []);
    assert confList == PairingCases(program, SingleEnd, ReadLengths);
    confList := AppendPairingCases(program, PairedEnd, confList);
    SuiteSize(program);
  }

  // ---------------------------------------------------------------------
  // Counts
  // ---------------------------------------------------------------------

  /** Per read length: 1 default + 1 indels + 2 strands + 11 identity rates
      + 6 formats + 2 sort orders. */
  lemma VariantCount()
    ensures |Variants()| == 2 + |Strands| + |Identities| + |OutputFormats| + |SortOrders| == 23
  {
  }

  /** A pairing mode contributes one block of 23 variants per read length:
      the cross product of the axes. */
  lemma {:induction false} PairingCasesLength(program: string, p: Pairing, rls: seq<nat>)
    ensures |PairingCases(program, p, rls)| == |rls| * 23
    decreases |rls|
  {
    if rls != [] {
      var m := |rls| - 1;
      PairingCasesLength(program, p, rls[..m]);
      assert |ReadLengthCases(program, p, rls[m])| == 23;
    }
  }

  /** Two pairing modes, two read lengths, 23 variants: 92 cases. */
  lemma SuiteSize(program: string)
    ensures |Suite(program)| == 2 * |ReadLengths| * |Variants()| == CaseCount == 92
  {
    PairingCasesLength(program, SingleEnd, ReadLengths);
    PairingCasesLength(program, PairedEnd, ReadLengths);
    VariantCount();
  }

  /** Case `k` of read length `rl == rls[r]` sits at offset `23 * r + k`
      of the cases of a pairing mode. */
  lemma {:induction false} PairingCasesAt(program: string, p: Pairing, rls: seq<nat>, r: nat, rl: nat, k: nat)
    requires r < |rls| && rls[r] == rl && k < 23
    ensures |PairingCases(program, p, rls)| == |rls| * 23
    ensures PairingCases(program, p, rls)[23 * r + k] == ReadLengthCases(program, p, rl)[k]
    decreases |rls|
  {
    var m := |rls| - 1;
    PairingCasesLength(program, p, rls);
    PairingCasesLength(program, p, rls[..m]);
    var left, right := PairingCases(program, p, rls[..m]), ReadLengthCases(program, p, rls[m]);
    assert PairingCases(program, p, rls) == left + right;
    if r < m {
      assert rls[..m][r] == rl;
      PairingCasesAt(program, p, rls[..m], r, rl, k);
      assert 23 * r + k < |left|;
    }
  }

  /** Case `k` of read length `r` of mode `p` in `conf_list`. */
  lemma SuiteAt(program: string, p: Pairing, r: nat, k: nat)
    requires r < |ReadLengths| && k < |Variants()|
    ensures |Suite(program)| == 92
    ensures Suite(program)[(if p == SingleEnd then 0 else 46) + 23 * r + k]
         == MakeConf(program, p, ReadLengths[r], Variants()[k])
  {
    SuiteSize(program);
    VariantCount();
    PairingCasesAt(program, p, ReadLengths, r, ReadLengths[r], k);
    PairingCasesLength(program, SingleEnd, ReadLengths);
    CasesOfAt(program, p, ReadLengths[r], Variants(), k);
  }

  // ---------------------------------------------------------------------
  // The duplicated paired-end case
  // ---------------------------------------------------------------------

  /** The paired-end "Allow indels" case is the paired-end default case once
      more, while the single-end one differs from its default by `-ng`. */
  lemma PairedIndelsRepeatsDefault(program: string, rl: nat)
    ensures MakeConf(program, PairedEnd, rl, Indels) == MakeConf(program, PairedEnd, rl, Default)
    ensures MakeConf(program, SingleEnd, rl, Indels) != MakeConf(program, SingleEnd, rl, Default)
  {
    assert MakeConf(program, SingleEnd, rl, Indels).args[0] == Flag("-ng");
    assert MakeConf(program, SingleEnd, rl, Default).args[0].PathArg?;
  }

  /** For each read length, the first two paired-end cases coincide. */
  lemma PairedRepeatAt(program: string, r: nat)
    requires r < |ReadLengths|
    ensures |Suite(program)| == 92
    ensures Suite(program)[46 + 23 * r] == Suite(program)[46 + 23 * r + 1]
  {
    assert Variants()[0] == Default && Variants()[1] == Indels;
    SuiteAt(program, PairedEnd, r, 0);
    SuiteAt(program, PairedEnd, r, 1);
    PairedIndelsRepeatsDefault(program, ReadLengths[r]);
  }

  /** So `conf_list` holds the same configuration twice in a row, for each
      read length, at the start of the paired-end part. */
  lemma SuiteRepeatsPairedDefault(program: string)
    ensures |Suite(program)| == 92
    ensures Suite(program)[46] == Suite(program)[47]
    ensures Suite(program)[69] == Suite(program)[70]
  {
    PairedRepeatAt(program, 0);
    PairedRepeatAt(program, 1);
  }
}
