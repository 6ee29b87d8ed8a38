/** The template creator: a batch object holding the output location, the
    background samples with their target areas, and the dictionaries of
    signals and scaled histograms that the 1-D creators fill. Samples are
    taken as their bin counts against the batch's shared bin edges. */
module TemplateCreator {
  import opened Wrappers
  import opened Strings
  import opened Histograms
  import opened TemplateHelperMethods
  import opened Interference

  /** `zip(names, samples, areas)`: as long as the shortest list. */
  function Zip(names: seq<string>, samples: seq<seq<real>>, areas: seq<real>): (r: seq<(string, Sample)>)
    ensures |r| <= |names| && |r| <= |samples| && |r| <= |areas|
    ensures |r| == |names| || |r| == |samples| || |r| == |areas|
    ensures forall i :: 0 <= i < |r| ==> r[i] == (names[i], Sample(samples[i], areas[i]))
  {
    var n := if |names| <= |samples| && |names| <= |areas| then |names|
      else if |samples| <= |areas| then |samples| else |areas|;
    seq(n, i requires 0 <= i < n => (names[i], Sample(samples[i], areas[i])))
  }

  /** The dictionary built by assigning the entries one after another: a
      repeated name takes its last value. */
  function DictOf(entries: seq<(string, Sample)>): map<string, Sample>
    decreases |entries|
  {
    if |entries| == 0 then map[]
    else DictOf(entries[..|entries| - 1])[entries[|entries| - 1].0 := entries[|entries| - 1].1]
  }

  /** The dictionary's key order: a name is placed when first assigned and
      keeps its place when assigned again. */
  function OrderOf(entries: seq<(string, Sample)>): seq<string>
    decreases |entries|
  {
    if |entries| == 0 then []
    else
      var order := OrderOf(entries[..|entries| - 1]);
      if entries[|entries| - 1].0 in order then order else order + [entries[|entries| - 1].0]
  }

  /** No name occurs twice. */
  predicate Distinct(names: seq<string>) {
    forall i, j :: 0 <= i < j < |names| ==> names[i] != names[j]
  }

  /** The key order lists every key of the dictionary exactly once. */
  lemma {:induction false} OrderOfKeys(entries: seq<(string, Sample)>)
    ensures Distinct(OrderOf(entries))
    ensures forall k :: k in OrderOf(entries) <==> k in DictOf(entries)
    decreases |entries|
  {
    if |entries| > 0 {
      OrderOfKeys(entries[..|entries| - 1]);
    }
  }

  /** A name is a key exactly when some entry carries it, and its value is
      the one of its last entry. */
  lemma {:induction false} DictOfLast(entries: seq<(string, Sample)>, k: string)
    ensures k in DictOf(entries) <==> exists i :: 0 <= i < |entries| && entries[i].0 == k
    ensures forall i :: (0 <= i < |entries| && entries[i].0 == k
      && forall j :: i < j < |entries| ==> entries[j].0 != k) ==> DictOf(entries)[k] == entries[i].1
    decreases |entries|
  {
    if |entries| > 0 {
      var n := |entries| - 1;
      var prefix := entries[..n];
      DictOfLast(prefix, k);
      if exists i :: 0 <= i < |entries| && entries[i].0 == k {
        var i :| 0 <= i < |entries| && entries[i].0 == k;
        if i < n {
          assert prefix[i].0 == k;
        }
      }
      forall i | 0 <= i < n && entries[i].0 == k && (forall j :: i < j < |entries| ==> entries[j].0 != k)
        ensures DictOf(entries)[k] == entries[i].1
      {
        assert prefix[i] == entries[i];
        assert forall j :: i < j < |prefix| ==> prefix[j].0 != k by {
          forall j | i < j < |prefix| ensures prefix[j].0 != k {
            assert prefix[j] == entries[j];
          }
        }
      }
    }
  }

  /** Assigning more entries never moves a name already placed: the order
      of a prefix is a prefix of the order. */
  lemma {:induction false} OrderOfGrows(entries: seq<(string, Sample)>, m: nat)
    requires m <= |entries|
    ensures OrderOf(entries[..m]) <= OrderOf(entries)
    decreases |entries|
  {
    if m < |entries| {
      var n := |entries| - 1;
      assert entries[..n][..m] == entries[..m];
      OrderOfGrows(entries[..n], m);
    } else {
      assert entries[..m] == entries;
    }
  }

  /** `os.path.abspath(d)` with a `/` appended when missing. */
  function OutputDirectory(absolute: string): (r: string)
    requires |absolute| > 0
    ensures |r| > 0 && r[|r| - 1] == '/'
    ensures StartsWith(r, absolute) && |r| <= |absolute| + 1
    ensures absolute[|absolute| - 1] == '/' ==> r == absolute
  {
    if absolute[|absolute| - 1] != '/' then absolute + "/" else absolute
  }

  /** The checkout root: the working directory up to the end of its first
      `HexUtils`, or empty when there is none. */
  function HexUtilsPath(cwd: string): (r: string)
    ensures r == "" <==> !Contains(cwd, "HexUtils")
    ensures r != "" ==> StartsWith(cwd, r) && |r| >= 8 && r[|r| - 8..] == "HexUtils"
    ensures r != "" ==> forall j :: 0 <= j < |r| - 8 ==> !StartsWith(cwd[j..], "HexUtils")
  {
    if Contains(cwd, "HexUtils") then cwd[..Find(cwd, "HexUtils") + 8] else ""
  }

  /** What one background contributes to the stacked total: its counts,
      scaled to its area when scaling is asked for. */
  function Contribution(s: Sample, scaleTo: bool): (r: seq<real>)
    requires scaleTo ==> AbsSum(s.counts) > 0.0
    ensures |r| == |s.counts|
  {
    if scaleTo then Scale(s.counts, s.area) else s.counts
  }

  /** The backgrounds can all be scaled: none is empty. */
  predicate Scalable(order: seq<string>, bkgs: map<string, Sample>) {
    forall i :: 0 <= i < |order| ==> order[i] in bkgs && AbsSum(bkgs[order[i]].counts) > 0.0
  }

  /** All backgrounds are histogrammed on the same bins. */
  predicate SameWidth(order: seq<string>, bkgs: map<string, Sample>) {
    forall i :: 0 <= i < |order| ==>
      order[i] in bkgs && order[0] in bkgs && |bkgs[order[i]].counts| == |bkgs[order[0]].counts|
  }

  function Contributions(order: seq<string>, bkgs: map<string, Sample>, scaleTo: bool): (r: seq<seq<real>>)
    requires forall i :: 0 <= i < |order| ==> order[i] in bkgs
    requires scaleTo ==> Scalable(order, bkgs)
    ensures |r| == |order|
    ensures forall i :: 0 <= i < |order| ==> r[i] == Contribution(bkgs[order[i]], scaleTo)
  {
    seq(|order|, i requires 0 <= i < |order| => Contribution(bkgs[order[i]], scaleTo))
  }

  /** Histograms on the same bins. */
  predicate Aligned(cs: seq<seq<real>>) {
    |cs| >= 1 && forall i :: 0 <= i < |cs| ==> |cs[i]| == |cs[0]|
  }

  /** The bin-by-bin total of histograms on the same bins, adding them in
      order to the first. */
  function Stack(cs: seq<seq<real>>): (r: seq<real>)
    requires Aligned(cs)
    ensures |r| == |cs[0]|
    decreases |cs|
  {
    if |cs| == 1 then cs[0] else Add(Stack(cs[..|cs| - 1]), cs[|cs| - 1])
  }

  /** Stacking one more histogram adds it bin by bin. */
  lemma StackStep(cs: seq<seq<real>>, i: nat)
    requires Aligned(cs) && 1 <= i < |cs|
    ensures Aligned(cs[..i]) && Aligned(cs[..i + 1])
    ensures Stack(cs[..i + 1]) == Add(Stack(cs[..i]), cs[i])
  {
    assert cs[..i + 1][..i] == cs[..i];
  }

  /** The bins across the histograms at one bin index. */
  function Column(cs: seq<seq<real>>, j: nat): (r: seq<real>)
    requires forall i :: 0 <= i < |cs| ==> j < |cs[i]|
    ensures |r| == |cs| && forall i :: 0 <= i < |cs| ==> r[i] == cs[i][j]
  {
    seq(|cs|, i requires 0 <= i < |cs| => cs[i][j])
  }

  /** The areas of the histograms. */
  function Sums(cs: seq<seq<real>>): (r: seq<real>)
    ensures |r| == |cs| && forall i :: 0 <= i < |cs| ==> r[i] == Sum(cs[i])
  {
    seq(|cs|, i requires 0 <= i < |cs| => Sum(cs[i]))
  }

  /** Each bin of the stack is the sum of that bin over all histograms. */
  lemma {:induction false} StackColumn(cs: seq<seq<real>>, j: nat)
    requires Aligned(cs) && j < |cs[0]|
    ensures Stack(cs)[j] == Sum(Column(cs, j))
    decreases |cs|
  {
    if |cs| > 1 {
      var n := |cs| - 1;
      StackColumn(cs[..n], j);
      assert Column(cs, j)[..n] == Column(cs[..n], j);
    } else {
      assert Column(cs, j)[..0] == [];
    }
  }

  /** The area of the stack is the sum of the areas. */
  lemma {:induction false} StackArea(cs: seq<seq<real>>)
    requires Aligned(cs)
    ensures Sum(Stack(cs)) == Sum(Sums(cs))
    decreases |cs|
  {
    if |cs| > 1 {
      var n := |cs| - 1;
      StackArea(cs[..n]);
      var prev := Stack(cs[..n]);
      SumPointwiseAdd(Stack(cs), prev, cs[n]);
      assert Sums(cs)[..n] == Sums(cs[..n]);
    } else {
      assert Sums(cs)[..0] == [];
    }
  }

  /** Histogram counts are never negative; scaling such counts to a
      non-negative area gives bins that sum to that area. */
  lemma ScaledCountsArea(counts: seq<real>, area: real)
    requires AbsSum(counts) > 0.0 && area >= 0.0
    requires forall i :: 0 <= i < |counts| ==> counts[i] >= 0.0
    ensures Sum(Scale(counts, area)) == area
  {
    var s := Scale(counts, area);
    ScaleArea(counts, area);
    ScaleIsTimes(counts, area);
    assert forall i :: 0 <= i < |s| ==> s[i] >= 0.0 by {
      forall i | 0 <= i < |s| ensures s[i] >= 0.0 {
        NonNegativeProduct(counts[i], area / AbsSum(counts));
      }
    }
    assert AbsAll(s) == s;
  }

  /** Proof step only: the product of two non-negative reals. */
  lemma NonNegativeProduct(x: real, y: real)
    requires x >= 0.0 && y >= 0.0
    ensures x * y >= 0.0
  {
  }

  /** With scaling, backgrounds of non-negative counts stack to a total
      whose area is the sum of their target areas. */
  lemma ScaledStackArea(order: seq<string>, bkgs: map<string, Sample>)
    requires |order| >= 1 && SameWidth(order, bkgs) && Scalable(order, bkgs)
    requires forall i :: 0 <= i < |order| ==> (bkgs[order[i]].area >= 0.0
      && forall j :: 0 <= j < |bkgs[order[i]].counts| ==> bkgs[order[i]].counts[j] >= 0.0)
    ensures var cs := Contributions(order, bkgs, true);
      Aligned(cs) && Sum(Stack(cs)) == Sum(seq(|order|, i requires 0 <= i < |order| => bkgs[order[i]].area))
  {
    var cs := Contributions(order, bkgs, true);
    StackArea(cs);
    var areas := seq(|order|, i requires 0 <= i < |order| => bkgs[order[i]].area);
    forall i | 0 <= i < |order| ensures Sums(cs)[i] == areas[i] {
      ScaledCountsArea(bkgs[order[i]].counts, bkgs[order[i]].area);
    }
    assert Sums(cs) == areas;
  }

  /** `Template_creator` with the state of its 1-D subclass: where the
      outputs go, the background samples in the order the dictionary keeps
      them, the scaled backgrounds, and the signals of a batch. */
  class Creator {
    var outputDirectory: string
    var fname: string
    var hexUtilsPath: string
    /** The keys of `bkgs`, in the dictionary's order. */
    var bkgOrder: seq<string>
    var bkgs: map<string, Sample>
    var scaledBkgs: map<string, array<real>>
    var signals: map<string, Sample>
    var scaledSignals: map<string, seq<real>>

    predicate Valid()
      reads this`outputDirectory, this`bkgOrder, this`bkgs
    {
      |outputDirectory| > 0 && outputDirectory[|outputDirectory| - 1] == '/'
      && Distinct(bkgOrder)
      && (forall k :: k in bkgOrder ==> k in bkgs)
      && (forall k :: k in bkgs ==> k in bkgOrder)
    }

    /** The constructor, with `os.path.abspath` of the output directory and
        `os.getcwd()` given as strings. */
    constructor (absOutputDirectory: string, fileName: string, cwd: string,
                 bkgNames: seq<string>, bkgSamples: seq<seq<real>>, bkgAreas: seq<real>)
      requires |absOutputDirectory| > 0
      ensures Valid()
      ensures outputDirectory == OutputDirectory(absOutputDirectory)
      ensures fname == BeforeFirst(fileName, '.')
      ensures hexUtilsPath == HexUtilsPath(cwd)
      ensures bkgOrder == OrderOf(Zip(bkgNames, bkgSamples, bkgAreas))
      ensures bkgs == DictOf(Zip(bkgNames, bkgSamples, bkgAreas))
      ensures scaledBkgs == map[] && signals == map[] && scaledSignals == map[]
    {
      var path := "";
      if Contains(cwd, "HexUtils") {
        path := cwd[..Find(cwd, "HexUtils") + 8];
      }
      var directory := absOutputDirectory;
      if directory[|directory| - 1] != '/' {
        directory := directory + "/";
      }
      var entries := Zip(bkgNames, bkgSamples, bkgAreas);
      var order: seq<string> := [];
      var dict: map<string, Sample> := map[];
      var i := 0;
      while i < |entries|
        invariant 0 <= i <= |entries|
        invariant order == OrderOf(entries[..i]) && dict == DictOf(entries[..i])
      {
        OrderOfKeys(entries[..i]);
        var (name, sample) := entries[i];
        if name !in dict {
          order := order + [name];
        }
        dict := dict[name := sample];
        assert entries[..i + 1][..i] == entries[..i];
        i := i + 1;
      }
      assert entries[..i] == entries;
      OrderOfKeys(entries);
      outputDirectory := directory;
      fname := Split(fileName, '.')[0];
      hexUtilsPath := path;
      bkgOrder := order;
      bkgs := dict;
      scaledBkgs := map[];
      signals := map[];
      scaledSignals := map[];
    }

    /** `overall += counts`, in place. */
    static method AddInto(overall: array<real>, counts: seq<real>)
      requires overall.Length == |counts|
      modifies overall
      ensures overall[..] == Add(old(overall[..]), counts)
    {
      var j := 0;
      while j < overall.Length
        invariant 0 <= j <= overall.Length
        invariant forall t :: 0 <= t < j ==> overall[t] == old(overall[t]) + counts[t]
        invariant forall t :: j <= t < overall.Length ==> overall[t] == old(overall[t])
      {
        overall[j] := overall[j] + counts[j];
        j := j + 1;
      }
    }

    /** `term -= counts`, in place. */
    static method SubInto(term: array<real>, counts: seq<real>)
      requires term.Length == |counts|
      modifies term
      ensures term[..] == Sub(old(term[..]), counts)
    {
      var j := 0;
      while j < term.Length
        invariant 0 <= j <= term.Length
        invariant forall t :: 0 <= t < j ==> term[t] == old(term[t]) - counts[t]
        invariant forall t :: j <= t < term.Length ==> term[t] == old(term[t])
      {
        term[j] := term[j] - counts[j];
        j := j + 1;
      }
    }

    /** The decomposition done by the three-resonance interference
        creator's constructor once the base constructor has run: every pure
        sample and then every interference sample is recorded in the
        signal dictionaries, and the templates written to the output file
        (recreated empty) are returned. */
    method DecomposeInterference(b: Batch) returns (file: map<string, seq<real>>)
      requires WellFormed(b)
      modifies this`signals, this`scaledSignals
      ensures Outputs(signals, scaledSignals, file) ==
        Decomposed(b, Outputs(old(signals), old(scaledSignals), map[]), 6)
    {
      ghost var o := Outputs(signals, scaledSignals, map[]);
      var pures;
      file, pures := RecordPures(b);
      var n := 0;
      while n < 6
        invariant n <= 6
        invariant Outputs(signals, scaledSignals, file) == Decomposed(b, o, n)
      {
        file := RecordInterference(b, n, pures, file);
        n := n + 1;
      }
    }

    /** The three pure samples in order; their histograms at their cross
        sections are returned for the interference steps. */
    method RecordPures(b: Batch) returns (file: map<string, seq<real>>, pures: seq<seq<real>>)
      requires Shaped(b)
      modifies this`signals, this`scaledSignals
      ensures Outputs(signals, scaledSignals, file) == Pures(b, Outputs(old(signals), old(scaledSignals), map[]))
      ensures |pures| == 3 && forall i :: 0 <= i < 3 ==> pures[i] == CsScaled(b, i)
    {
      var bw1, bw2, bw3;
      file, bw1 := RecordPure(b, 0, map[]);
      file, bw2 := RecordPure(b, 1, file);
      file, bw3 := RecordPure(b, 2, file);
      pures := [bw1, bw2, bw3];
    }

    /** One pure sample: its raw sample is recorded with its area, it is
        scaled to its cross section, and when that leaves a nonzero bin it
        is scaled to its area, written and stored. The histogram at its
        cross section is returned for the interference steps. */
    method RecordPure(b: Batch, i: nat, file: map<string, seq<real>>)
      returns (file': map<string, seq<real>>, csScaled: seq<real>)
      requires Shaped(b) && i < 3
      modifies this`signals, this`scaledSignals
      ensures Outputs(signals, scaledSignals, file') ==
        PureStep(b, i, Outputs(old(signals), old(scaledSignals), file))
      ensures csScaled == CsScaled(b, i)
    {
      var form := StringForms[i];
      signals := signals[form := Sample(b.pures[i], b.areas[i])];
      csScaled := Scale(b.pures[i], b.pureCS[i]);
      file' := file;
      if Any(csScaled) {
        AbsSumPositive(csScaled);
        var temp := Scale(csScaled, b.areas[i]);
        file' := file'[FileName(form, "") := temp];
        scaledSignals := scaledSignals[form := temp];
      }
    }

    /** One interference sample: scaled to its cross section, recorded with
        the root of its pair, reduced in place by its two pure samples
        (`pures`, at their cross sections), rescaled to the root, stored,
        and split into the positive and negative templates that are
        written when not empty. */
    method RecordInterference(b: Batch, n: nat, pures: seq<seq<real>>, file: map<string, seq<real>>)
      returns (file': map<string, seq<real>>)
      requires WellFormed(b) && n < 6
      requires |pures| == 3 && forall i :: 0 <= i < 3 ==> pures[i] == CsScaled(b, i)
      modifies this`signals, this`scaledSignals
      ensures Outputs(signals, scaledSignals, file') ==
        InterferenceStep(b, n, Outputs(old(signals), old(scaledSignals), file))
    {
      var form := StringForms[n + 3];
      var term := FreshCopy(Scale(b.interfs[n], b.interfCS[n]));
      var p := PairOf(form);
      var area := b.roots[p];
      signals := signals[form := Sample(term[..], area)];
      var (i, j) := Members(p);
      SubInto(term, Add(pures[i], pures[j]));
      assert term[..] == Residual(b, n);
      var scaled := Scale(term[..], area);
      scaledSignals := scaledSignals[form := scaled];
      file' := WriteTemplates(file, form, scaled);
    }

    /** The positive and the negative part of a rescaled interference
        term, each written to the output file when it has a nonzero bin. */
    static method WriteTemplates(file: map<string, seq<real>>, form: string, scaled: seq<real>)
      returns (file': map<string, seq<real>>)
      ensures file' == Put(Put(file, FileName(form, "_pos"), PosTemplate(scaled)),
                           FileName(form, "_neg"), NegTemplate(scaled))
    {
      var pos := PosPart(scaled);
      var neg := NegPart(scaled);
      file' := file;
      if Any(pos) {
        file' := file'[FileName(form, "_pos") := pos];
      }
      if Any(neg) {
        file' := file'[FileName(form, "_neg") := neg];
      }
    }

    /** `scale_and_add_bkgs`: scales every background to its area when
        `scaleTo` is set, storing each scaled histogram, and adds them all
        up in the dictionary's order. The total is the first background's
        own array, so with scaling the first stored histogram is the total.
        Without backgrounds the source fails on `[0]`: `None`. */
    method ScaleAndAddBkgs(scaleTo: bool) returns (r: Option<array<real>>)
      requires Valid() && SameWidth(bkgOrder, bkgs)
      requires scaleTo ==> Scalable(bkgOrder, bkgs)
      modifies this`scaledBkgs
      ensures Valid()
      ensures r.None? <==> |bkgOrder| == 0
      ensures r.Some? ==> fresh(r.value) && r.value[..] == Stack(Contributions(bkgOrder, bkgs, scaleTo))
      ensures !scaleTo || r.None? ==> scaledBkgs == old(scaledBkgs)
      ensures scaleTo && r.Some? ==> scaledBkgs.Keys == old(scaledBkgs).Keys + bkgs.Keys
      ensures scaleTo && r.Some? ==> scaledBkgs[bkgOrder[0]] == r.value
      ensures scaleTo && r.Some? ==> forall i :: 1 <= i < |bkgOrder| ==>
        bkgOrder[i] in scaledBkgs && scaledBkgs[bkgOrder[i]] != r.value
        && scaledBkgs[bkgOrder[i]][..] == Scale(bkgs[bkgOrder[i]].counts, bkgs[bkgOrder[i]].area)
      ensures forall k :: k in old(scaledBkgs) && k !in bkgs ==> scaledBkgs[k] == old(scaledBkgs)[k]
    {
      if |bkgOrder| == 0 {
        return None;
      }
      var overall, stored := StackBackgrounds(bkgOrder, bkgs, scaleTo, scaledBkgs);
      scaledBkgs := stored;
      r := Some(overall);
    }
  }

  /** The names listed in `order`. */
  function KeySet(order: seq<string>): (r: set<string>)
    decreases |order|
  {
    if |order| == 0 then {} else KeySet(order[..|order| - 1]) + {order[|order| - 1]}
  }

  lemma KeySetStep(order: seq<string>, i: nat)
    requires i < |order|
    ensures KeySet(order[..i + 1]) == KeySet(order[..i]) + {order[i]}
  {
    assert order[..i + 1][..i] == order[..i];
  }

  /** The key set holds exactly the listed names. */
  lemma {:induction false} KeySetMembers(order: seq<string>)
    ensures forall k :: k in KeySet(order) <==> k in order
    decreases |order|
  {
    if |order| > 0 {
      var n := |order| - 1;
      KeySetMembers(order[..n]);
      assert forall k :: k in order <==> k in order[..n] || k == order[n] by {
        assert order == order[..n] + [order[n]];
      }
    }
  }

  /** A key order that lists exactly the keys of a dictionary has the
      dictionary's keys as its key set. */
  lemma OrderKeys(order: seq<string>, m: map<string, Sample>)
    requires forall k :: k in order ==> k in m
    requires forall k :: k in m ==> k in order
    ensures KeySet(order) == m.Keys
  {
    KeySetMembers(order);
  }

  /** The loop of `scale_and_add_bkgs` over the backgrounds in `order`,
      with the dictionary of scaled backgrounds `stored0` it updates. */
  method StackBackgrounds(order: seq<string>, samples: map<string, Sample>, scaleTo: bool,
                          stored0: map<string, array<real>>)
    returns (overall: array<real>, stored: map<string, array<real>>)
    requires |order| >= 1 && Distinct(order)
    requires forall k :: k in samples ==> k in order
    requires SameWidth(order, samples)
    requires scaleTo ==> Scalable(order, samples)
    ensures fresh(overall) && overall[..] == Stack(Contributions(order, samples, scaleTo))
    ensures !scaleTo ==> stored == stored0
    ensures scaleTo ==> stored.Keys == stored0.Keys + samples.Keys
    ensures scaleTo ==> stored[order[0]] == overall
    ensures scaleTo ==> forall i :: 1 <= i < |order| ==>
      order[i] in stored && stored[order[i]] != overall
      && stored[order[i]][..] == Scale(samples[order[i]].counts, samples[order[i]].area)
    ensures forall k :: k in stored0 && k !in samples ==> stored[k] == stored0[k]
  {
    forall k | k in order ensures k in samples {
      var i :| 0 <= i < |order| && order[i] == k;
    }
    OrderKeys(order, samples);
    ghost var added, contents, total;
    overall, stored, added, contents, total := StackLoop(order, samples, scaleTo, stored0);
    StoredAtEnd(order, samples, scaleTo, stored0, stored, added, contents, overall, total);
  }

  /** The statements of `scale_and_add_bkgs`, with what they have added to
      the dictionary and the contents of those arrays as ghost results. */
  method StackLoop(order: seq<string>, samples: map<string, Sample>, scaleTo: bool,
                   stored0: map<string, array<real>>)
    returns (overall: array<real>, stored: map<string, array<real>>,
             ghost added: map<string, array<real>>, ghost contents: map<string, seq<real>>,
             ghost total: seq<real>)
    requires |order| >= 1 && Distinct(order)
    requires SameWidth(order, samples)
    requires scaleTo ==> Scalable(order, samples)
    ensures Stacked(order, Contributions(order, samples, scaleTo), scaleTo, stored0, stored, added,
                    contents, overall, total, |order|)
    ensures fresh(overall) && overall[..] == total
    ensures forall k :: k in contents ==> k in added && added[k] != overall && added[k][..] == contents[k]
  {
    ghost var cs := Contributions(order, samples, scaleTo);
    overall, stored, added, contents, total := StackFirst(order, samples, scaleTo, cs, stored0);
    var i := 1;
    while i < |order|
      invariant Stacked(order, cs, scaleTo, stored0, stored, added, contents, overall, total, i)
      invariant fresh(overall) && overall[..] == total
      invariant forall k :: k in contents ==> k in added && added[k] != overall && added[k][..] == contents[k]
    {
      stored, added, contents, total := StackPass(order, samples, scaleTo, cs, overall, stored0, stored,
                                                  added, contents, total, i);
      i := i + 1;
    }
    assert i == |order|;
  }

  /** The statements before the loop of `scale_and_add_bkgs`: the first
      background's contribution, stored (with scaling), is the total. */
  method StackFirst(order: seq<string>, samples: map<string, Sample>, scaleTo: bool,
                    ghost cs: seq<seq<real>>, stored0: map<string, array<real>>)
    returns (overall: array<real>, stored: map<string, array<real>>,
             ghost added: map<string, array<real>>, ghost contents: map<string, seq<real>>,
             ghost total: seq<real>)
    requires |order| >= 1 && SameWidth(order, samples)
    requires scaleTo ==> Scalable(order, samples)
    requires cs == Contributions(order, samples, scaleTo)
    ensures Stacked(order, cs, scaleTo, stored0, stored, added, contents, overall, total, 1)
    ensures fresh(overall) && overall[..] == total
    ensures forall k :: k in contents ==> k in added && added[k] != overall && added[k][..] == contents[k]
  {
    var counts := Contribution(samples[order[0]], scaleTo);
    overall := FreshCopy(counts);
    stored := stored0;
    added, contents := map[], map[];
    if scaleTo {
      stored := stored[order[0] := overall];
      added := map[order[0] := overall];
    }
    ContributionsAligned(order, samples, scaleTo);
    total := counts;
    StackedFirst(order, cs, scaleTo, stored0, stored, added, contents, overall, total, 1);
  }

  /** One pass of the loop over the backgrounds after the first: the
      `i`-th background's contribution is stored (with scaling) and added
      into the total. */
  method StackPass(order: seq<string>, samples: map<string, Sample>, scaleTo: bool,
                   ghost cs: seq<seq<real>>, overall: array<real>, ghost stored0: map<string, array<real>>,
                   stored: map<string, array<real>>, ghost added: map<string, array<real>>,
                   ghost contents: map<string, seq<real>>, ghost total: seq<real>, i: int)
    returns (stored': map<string, array<real>>, ghost added': map<string, array<real>>,
             ghost contents': map<string, seq<real>>, ghost total': seq<real>)
    requires Distinct(order) && SameWidth(order, samples)
    requires scaleTo ==> Scalable(order, samples)
    requires cs == Contributions(order, samples, scaleTo)
    requires Stacked(order, cs, scaleTo, stored0, stored, added, contents, overall, total, i)
    requires i < |order|
    requires overall[..] == total
    requires forall k :: k in contents ==> k in added && added[k] != overall && added[k][..] == contents[k]
    modifies overall
    ensures Stacked(order, cs, scaleTo, stored0, stored', added', contents', overall, total', i + 1)
    ensures overall[..] == total'
    ensures forall k :: k in contents' ==> k in added' && added'[k] != overall && added'[k][..] == contents'[k]
  {
    var c := Contribution(samples[order[i]], scaleTo);
    assert cs[i] == c;
    stored', added', contents' := StackOne(overall, stored0, stored, added, contents, order[i], c, scaleTo);
    StackedStep(order, cs, scaleTo, stored0, stored, added, contents, overall, total, i, stored', added', contents');
    total' := Add(total, c);
  }

  /** The loop of `scale_and_add_bkgs` after its first `i` backgrounds:
      `total` stacks their histograms `cs`, the dictionary is `stored0`
      with what the loop `added`, and `contents` records the arrays it
      stored besides the total. */
  ghost predicate Stacked(order: seq<string>, cs: seq<seq<real>>, scaleTo: bool,
                          stored0: map<string, array<real>>, stored: map<string, array<real>>,
                          added: map<string, array<real>>, contents: map<string, seq<real>>,
                          overall: array<real>, total: seq<real>, i: int)
  {
    1 <= i <= |order| == |cs| && Aligned(cs) && Aligned(cs[..i])
    && total == Stack(cs[..i]) && |total| == |cs[0]|
    && stored == stored0 + added
    && (!scaleTo ==> added == map[] && contents == map[])
    && (scaleTo ==> added.Keys == KeySet(order[..i]) && order[0] in added && added[order[0]] == overall)
    && (scaleTo ==> forall j :: 1 <= j < i ==> order[j] in contents && contents[order[j]] == cs[j])
  }

  /** All contributions are on the bins of the first. */
  lemma ContributionsAligned(order: seq<string>, samples: map<string, Sample>, scaleTo: bool)
    requires |order| >= 1 && SameWidth(order, samples)
    requires scaleTo ==> Scalable(order, samples)
    ensures Aligned(Contributions(order, samples, scaleTo))
  {
    var cs := Contributions(order, samples, scaleTo);
    forall j | 0 <= j < |cs| ensures |cs[j]| == |cs[0]| {
      assert cs[j] == Contribution(samples[order[j]], scaleTo);
    }
  }

  /** The loop starts with the first background alone. */
  lemma StackedFirst(order: seq<string>, cs: seq<seq<real>>, scaleTo: bool,
                     stored0: map<string, array<real>>, stored: map<string, array<real>>,
                     added: map<string, array<real>>, contents: map<string, seq<real>>,
                     overall: array<real>, total: seq<real>, i: int)
    requires |order| == |cs| >= 1 && Aligned(cs)
    requires stored == (if scaleTo then stored0[order[0] := overall] else stored0)
    requires added == (if scaleTo then map[order[0] := overall] else map[])
    requires contents == map[] && total == cs[0] && i == 1
    ensures Stacked(order, cs, scaleTo, stored0, stored, added, contents, overall, total, i)
  {
    assert cs[..1] == [cs[0]];
    assert KeySet(order[..1]) == {order[0]} by {
      KeySetStep(order, 0);
      assert KeySet(order[..0]) == {};
    }
    assert stored == stored0 + added;
  }

  /** One pass of the loop keeps `Stacked`, one background further on. */
  lemma StackedStep(order: seq<string>, cs: seq<seq<real>>, scaleTo: bool,
                    stored0: map<string, array<real>>, stored: map<string, array<real>>,
                    added: map<string, array<real>>, contents: map<string, seq<real>>,
                    overall: array<real>, total: seq<real>, i: int,
                    stored': map<string, array<real>>, added': map<string, array<real>>,
                    contents': map<string, seq<real>>)
    requires Distinct(order)
    requires Stacked(order, cs, scaleTo, stored0, stored, added, contents, overall, total, i)
    requires i < |order|
    requires stored' == stored0 + added'
    requires !scaleTo ==> added' == added && contents' == contents
    requires scaleTo ==> contents' == contents[order[i] := cs[i]]
    requires scaleTo ==> added'.Keys == added.Keys + {order[i]} && added'[order[i]] != overall
    requires scaleTo ==> forall k :: k in added && k != order[i] ==> added'[k] == added[k]
    ensures |total| == |cs[i]|
    ensures Stacked(order, cs, scaleTo, stored0, stored', added', contents', overall, Add(total, cs[i]), i + 1)
  {
    StackStep(cs, i);
    KeySetStep(order, i);
    if scaleTo {
      forall j | 1 <= j <= i ensures order[j] in contents' && contents'[order[j]] == cs[j] {
        if j < i {
          assert order[j] != order[i];
        }
      }
      assert order[0] != order[i];
    }
  }

  /** What the loop of `scale_and_add_bkgs` leaves: the stack of all the
      contributions, and a dictionary of scaled backgrounds that is
      `stored0` with every background's scaled histogram added. */
  lemma StoredAtEnd(order: seq<string>, samples: map<string, Sample>, scaleTo: bool,
                    stored0: map<string, array<real>>, stored: map<string, array<real>>,
                    added: map<string, array<real>>, contents: map<string, seq<real>>,
                    overall: array<real>, total: seq<real>)
    requires |order| >= 1 && SameWidth(order, samples)
    requires scaleTo ==> Scalable(order, samples)
    requires Stacked(order, Contributions(order, samples, scaleTo), scaleTo, stored0, stored, added,
                     contents, overall, total, |order|)
    ensures total == Stack(Contributions(order, samples, scaleTo))
    ensures !scaleTo ==> stored == stored0
    ensures scaleTo ==> stored.Keys == stored0.Keys + KeySet(order)
    ensures scaleTo ==> order[0] in stored && stored[order[0]] == overall
    ensures forall k :: k in stored0 && k !in KeySet(order) ==> k in stored && stored[k] == stored0[k]
    ensures forall k :: k in added ==> k in stored && stored[k] == added[k]
    ensures scaleTo ==> forall j :: 1 <= j < |order| ==>
      order[j] in contents && contents[order[j]] == Scale(samples[order[j]].counts, samples[order[j]].area)
  {
    var cs := Contributions(order, samples, scaleTo);
    assert cs[..|order|] == cs;
    assert order[..|order|] == order;
    if !scaleTo {
      assert stored == stored0;
    }
  }

  /** One pass of the loop of `scale_and_add_bkgs`: with scaling, the
      histogram `c` is stored under `name` in an array of its own; `c` is
      added into the total in place. `added` holds what the loop has stored
      over `stored0` so far, `contents` the contents of those arrays other
      than the total, which keep them. */
  method StackOne(overall: array<real>, ghost stored0: map<string, array<real>>,
                  stored: map<string, array<real>>, ghost added: map<string, array<real>>,
                  ghost contents: map<string, seq<real>>, name: string, c: seq<real>, scaleTo: bool)
    returns (stored': map<string, array<real>>, ghost added': map<string, array<real>>,
             ghost contents': map<string, seq<real>>)
    requires overall.Length == |c|
    requires stored == stored0 + added
    requires forall k :: k in contents ==> k in added && added[k] != overall && added[k][..] == contents[k]
    modifies overall
    ensures overall[..] == Add(old(overall[..]), c)
    ensures stored' == stored0 + added'
    ensures forall k :: k in contents' ==> k in added' && added'[k] != overall && added'[k][..] == contents'[k]
    ensures !scaleTo ==> added' == added && contents' == contents
    ensures scaleTo ==> contents' == contents[name := c]
    ensures scaleTo ==> added'.Keys == added.Keys + {name} && added'[name] != overall
    ensures scaleTo ==> forall k :: k in added && k != name ==> added'[k] == added[k]
  {
    stored', added', contents' := stored, added, contents;
    if scaleTo {
      var b := FreshCopy(c);
      stored' := stored[name := b];
      added' := added[name := b];
      contents' := contents[name := c];
    }
    label Adding:
    Creator.AddInto(overall, c);
    forall k | k in contents' ensures added'[k][..] == contents'[k] {
      assert added'[k][..] == old@Adding(added'[k][..]);
    }
  }

  /** A new array holding `s`: the array a numpy operation returns. */
  method FreshCopy(s: seq<real>) returns (a: array<real>)
    ensures fresh(a) && a[..] == s
  {
    a := new real[|s|](j requires 0 <= j < |s| => s[j]);
  }
}
