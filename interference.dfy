/** The decomposition of a batch of three resonances into templates: each
    pure sample is scaled to its cross section and then to its area; each
    interference sample is scaled to its cross section, the two pure
    samples it mixes are subtracted, and the residual is rescaled to the
    geometric mean of their areas and split into a positive and a negative
    template. This module is the specification of that computation, as a
    sequence of updates to the signal dictionaries and the output file. */
module Interference {
  import opened Wrappers
  import opened Strings
  import opened Histograms
  import opened TemplateHelperMethods

  /** The three pure samples followed by the six interference samples. */
  const StringForms: seq<string> :=
    ["BW1_0_0", "BW2_0_0", "BW3_0_0",
     "BW12_0_0", "BW12_05_0", "BW13_0_0", "BW13_0_05", "BW23_0_0", "BW23_0_05"]

  /** Which pair of pure samples an interference sample mixes: 0 for the
      first and second, 1 for the first and third, 2 for the second and
      third, decided by the digits in its name. */
  function PairOf(form: string): (p: nat)
    ensures p < 3
  {
    if Contains(form, "12") then 0 else if Contains(form, "13") then 1 else 2
  }

  /** The indices of the two pure samples of a pair. */
  function Members(p: nat): (r: (nat, nat))
    requires p < 3
    ensures r.0 < r.1 < 3
    ensures r.0 == 0 <==> p < 2
    ensures r.1 == 1 <==> p == 0
  {
    if p == 0 then (0, 1) else if p == 1 then (0, 2) else (1, 2)
  }

  /** The histogrammed inputs of one batch: the three pure samples with
      their cross sections and areas, the six interference samples with
      their cross sections, and for each pair the square root of the
      product of its two areas. */
  datatype Batch = Batch(
    pures: seq<seq<real>>, pureCS: seq<real>, areas: seq<real>,
    interfs: seq<seq<real>>, interfCS: seq<real>, roots: seq<real>)

  /** Nine histograms on the same bins, none of them empty, so that each
      can be scaled to its cross section. */
  predicate Shaped(b: Batch) {
    |b.pures| == |b.pureCS| == |b.areas| == 3
    && |b.interfs| == |b.interfCS| == 6 && |b.roots| == 3
    && (forall i :: 0 <= i < 3 ==> |b.pures[i]| == |b.pures[0]| && AbsSum(b.pures[i]) > 0.0)
    && (forall n :: 0 <= n < 6 ==> |b.interfs[n]| == |b.pures[0]| && AbsSum(b.interfs[n]) > 0.0)
  }

  /** Pure sample `i` scaled to its cross section. */
  function CsScaled(b: Batch, i: nat): (r: seq<real>)
    requires Shaped(b) && i < 3
    ensures |r| == |b.pures[0]|
  {
    Scale(b.pures[i], b.pureCS[i])
  }

  /** Interference sample `n` scaled to its cross section. */
  function InterfScaled(b: Batch, n: nat): (r: seq<real>)
    requires Shaped(b) && n < 6
    ensures |r| == |b.pures[0]|
  {
    Scale(b.interfs[n], b.interfCS[n])
  }

  /** What interference sample `n` holds beyond its two pure samples, all
      three at their cross sections. */
  function Residual(b: Batch, n: nat): (r: seq<real>)
    requires Shaped(b) && n < 6
    ensures |r| == |b.pures[0]|
  {
    var (a, c) := Members(PairOf(StringForms[n + 3]));
    Sub(InterfScaled(b, n), Add(CsScaled(b, a), CsScaled(b, c)))
  }

  /** A batch the decomposition is defined on: the roots are the square
      roots of the area products, and no residual is empty (scaling an
      empty residual divides by zero). */
  predicate WellFormed(b: Batch) {
    Shaped(b)
    && (forall p :: 0 <= p < 3 ==>
          b.roots[p] >= 0.0 && b.roots[p] * b.roots[p] == b.areas[Members(p).0] * b.areas[Members(p).1])
    && (forall n :: 0 <= n < 6 ==> AbsSum(Residual(b, n)) > 0.0)
  }

  /** The interference template of sample `n`: its residual rescaled to
      the root of its pair. */
  function Term(b: Batch, n: nat): (r: seq<real>)
    requires WellFormed(b) && n < 6
    ensures |r| == |b.pures[0]|
  {
    Scale(Residual(b, n), b.roots[PairOf(StringForms[n + 3])])
  }

  /** The template of pure sample `i`: written only when its histogram at
      its cross section has a nonzero bin. */
  function PureTemplate(b: Batch, i: nat): (r: Option<seq<real>>)
    requires Shaped(b) && i < 3
    ensures r.Some? ==> AbsSum(r.value) == Abs(b.areas[i])
  {
    var h := CsScaled(b, i);
    if Any(h) then
      AbsSumPositive(h);
      ScaleArea(h, b.areas[i]);
      Some(Scale(h, b.areas[i]))
    else None
  }

  /** `np.maximum(t, 0)`, written only when it has a nonzero bin. */
  function PosTemplate(t: seq<real>): Option<seq<real>> {
    if Any(PosPart(t)) then Some(PosPart(t)) else None
  }

  /** `-np.minimum(t, 0)`, written only when it has a nonzero bin. */
  function NegTemplate(t: seq<real>): Option<seq<real>> {
    if Any(NegPart(t)) then Some(NegPart(t)) else None
  }

  /** The name a template is written under in the output file. */
  function FileName(form: string, suffix: string): string {
    "ggH_0PM_" + form + suffix
  }

  /** The creator's signal and scaled-signal dictionaries and the output
      file, as seen by the decomposition. */
  datatype Outputs = Outputs(
    signals: map<string, Sample>, scaled: map<string, seq<real>>, file: map<string, seq<real>>)

  /** Writing an optional value under a key. */
  function Put<V>(m: map<string, V>, k: string, v: Option<V>): map<string, V> {
    if v.Some? then m[k := v.value] else m
  }

  /** Recording a pure sample: its signal is set, and its template, if
      any, is stored and written under the sample's own name. */
  function PureRecord(o: Outputs, form: string, signal: Sample, template: Option<seq<real>>): Outputs {
    Outputs(
      o.signals[form := signal],
      Put(o.scaled, form, template),
      Put(o.file, FileName(form, ""), template))
  }

  /** Recording an interference sample: its signal is set, its template is
      stored, and the non-empty parts of the template are written. */
  function InterferenceRecord(o: Outputs, form: string, signal: Sample, t: seq<real>): Outputs {
    Outputs(
      o.signals[form := signal],
      o.scaled[form := t],
      Put(Put(o.file, FileName(form, "_pos"), PosTemplate(t)), FileName(form, "_neg"), NegTemplate(t)))
  }

  /** The step for pure sample `i`: its raw sample is recorded as a signal
      with its area, with the template of `PureTemplate`. */
  function PureStep(b: Batch, i: nat, o: Outputs): Outputs
    requires Shaped(b) && i < 3
  {
    PureRecord(o, StringForms[i], Sample(b.pures[i], b.areas[i]), PureTemplate(b, i))
  }

  /** The step for interference sample `n`: its histogram at its cross
      section is recorded as a signal with the root of its pair, with the
      template of `Term`. */
  function InterferenceStep(b: Batch, n: nat, o: Outputs): Outputs
    requires WellFormed(b) && n < 6
  {
    var form := StringForms[n + 3];
    InterferenceRecord(o, form, Sample(InterfScaled(b, n), b.roots[PairOf(form)]), Term(b, n))
  }

  /** The three pure steps in order. */
  function Pures(b: Batch, o: Outputs): Outputs
    requires Shaped(b)
  {
    PureStep(b, 2, PureStep(b, 1, PureStep(b, 0, o)))
  }

  /** The pure steps followed by the first `n` interference steps. */
  function Decomposed(b: Batch, o: Outputs, n: nat): Outputs
    requires WellFormed(b) && n <= 6
  {
    if n == 0 then Pures(b, o) else InterferenceStep(b, n - 1, Decomposed(b, o, n - 1))
  }

  function Lookup<V>(m: map<string, V>, k: string): Option<V> {
    if k in m then Some(m[k]) else None
  }

  /** Everything the outputs hold under the names of one sample. */
  function Entries(o: Outputs, form: string): seq<Option<seq<real>>> {
    [Lookup(o.scaled, form), Lookup(o.file, FileName(form, "")),
     Lookup(o.file, FileName(form, "_pos")), Lookup(o.file, FileName(form, "_neg"))]
  }

  // ---------------------------------------------------------------------
  // Names

  lemma Pair12(form: string)
    requires form == "BW12_0_0" || form == "BW12_05_0"
    ensures PairOf(form) == 0
  {
    ContainsAt(form, "12", 2);
  }

  lemma Pair13(form: string)
    requires form == "BW13_0_0" || form == "BW13_0_05"
    ensures PairOf(form) == 1
  {
    MissingCharNotContained(form, "12", 1);
    ContainsAt(form, "13", 2);
  }

  lemma Pair23(form: string)
    requires form == "BW23_0_0" || form == "BW23_0_05"
    ensures PairOf(form) == 2
  {
    MissingCharNotContained(form, "12", 0);
    MissingCharNotContained(form, "13", 0);
  }

  /** The interference samples come in two phases per pair: the first two
      mix the first and second pure samples, the next two the first and
      third, the last two the second and third. */
  lemma FormPairs()
    ensures forall n :: 0 <= n < 6 ==> PairOf(StringForms[n + 3]) == n / 2
  {
    FormPairsOf(StringForms);
  }

  lemma FormPairsOf(forms: seq<string>)
    requires forms == StringForms
    ensures forall n :: 0 <= n < 6 ==> PairOf(forms[n + 3]) == n / 2
  {
    forall n | 0 <= n < 6 ensures PairOf(forms[n + 3]) == n / 2 {
      if n < 2 {
        Pair12(forms[n + 3]);
      } else if n < 4 {
        Pair13(forms[n + 3]);
      } else {
        Pair23(forms[n + 3]);
      }
    }
  }

  /** No two samples share a name, and no name ends the way a positive or
      negative template's name does. */
  lemma FormsDistinct()
    ensures forall i, j :: 0 <= i < j < 9 ==> StringForms[i] != StringForms[j]
    ensures forall i :: 0 <= i < 9 ==>
      |StringForms[i]| > 0 && StringForms[i][|StringForms[i]| - 1] in "05"
  {
  }

  /** Output names are made distinct by their sample name and suffix. */
  lemma FileNamesDistinct(f: string, s: string, f': string, s': string)
    requires f in StringForms && f' in StringForms
    requires s in ["", "_pos", "_neg"] && s' in ["", "_pos", "_neg"]
    requires f != f' || s != s'
    ensures FileName(f, s) != FileName(f', s')
  {
    FormsDistinct();
    var x, y := FileName(f, s), FileName(f', s');
    if s == s' {
      assert x[8..8 + |f|] == f;
      assert y[8..8 + |f'|] == f';
    } else {
      assert x[|x| - 1] != y[|y| - 1];
    }
  }

  // ---------------------------------------------------------------------
  // The steps touch only their own names

  lemma PureRecordElsewhere(o: Outputs, f: string, signal: Sample, template: Option<seq<real>>, form: string)
    requires f in StringForms && form in StringForms && form != f
    ensures Entries(PureRecord(o, f, signal, template), form) == Entries(o, form)
    ensures Lookup(PureRecord(o, f, signal, template).signals, form) == Lookup(o.signals, form)
  {
    FileNamesDistinct(form, "", f, "");
    FileNamesDistinct(form, "_pos", f, "");
    FileNamesDistinct(form, "_neg", f, "");
  }

  lemma InterferenceRecordElsewhere(o: Outputs, f: string, signal: Sample, t: seq<real>, form: string)
    requires f in StringForms && form in StringForms && form != f
    ensures Entries(InterferenceRecord(o, f, signal, t), form) == Entries(o, form)
    ensures Lookup(InterferenceRecord(o, f, signal, t).signals, form) == Lookup(o.signals, form)
  {
    FileNamesDistinct(form, "", f, "_pos");
    FileNamesDistinct(form, "", f, "_neg");
    FileNamesDistinct(form, "_pos", f, "_pos");
    FileNamesDistinct(form, "_pos", f, "_neg");
    FileNamesDistinct(form, "_neg", f, "_pos");
    FileNamesDistinct(form, "_neg", f, "_neg");
  }

  lemma PureStepElsewhere(b: Batch, i: nat, o: Outputs, form: string)
    requires Shaped(b) && i < 3
    requires form in StringForms && form != StringForms[i]
    ensures Entries(PureStep(b, i, o), form) == Entries(o, form)
    ensures Lookup(PureStep(b, i, o).signals, form) == Lookup(o.signals, form)
  {
    PureRecordElsewhere(o, StringForms[i], Sample(b.pures[i], b.areas[i]), PureTemplate(b, i), form);
  }

  lemma InterferenceStepElsewhere(b: Batch, n: nat, o: Outputs, form: string)
    requires WellFormed(b) && n < 6
    requires form in StringForms && form != StringForms[n + 3]
    ensures Entries(InterferenceStep(b, n, o), form) == Entries(o, form)
    ensures Lookup(InterferenceStep(b, n, o).signals, form) == Lookup(o.signals, form)
  {
    var f := StringForms[n + 3];
    InterferenceRecordElsewhere(o, f, Sample(InterfScaled(b, n), b.roots[PairOf(f)]), Term(b, n), form);
  }

  /** Interference steps `n` up to `m` leave the names of every other
      sample alone. */
  lemma {:induction false} LaterStepsElsewhere(b: Batch, o: Outputs, n: nat, m: nat, form: string)
    requires WellFormed(b) && n <= m <= 6
    requires form in StringForms
    requires forall j :: n + 3 <= j < m + 3 ==> form != StringForms[j]
    ensures Entries(Decomposed(b, o, m), form) == Entries(Decomposed(b, o, n), form)
    ensures Lookup(Decomposed(b, o, m).signals, form) == Lookup(Decomposed(b, o, n).signals, form)
    decreases m
  {
    if n < m {
      LaterStepsElsewhere(b, o, n, m - 1, form);
      InterferenceStepElsewhere(b, m - 1, Decomposed(b, o, m - 1), form);
    }
  }

  // ---------------------------------------------------------------------
  // What the decomposition produces

  /** The pure template exists exactly when the sample's cross section is
      nonzero, and then has the sample's area. */
  lemma PureTemplateWritten(b: Batch, i: nat)
    requires Shaped(b) && i < 3
    ensures PureTemplate(b, i).Some? <==> b.pureCS[i] != 0.0
    ensures PureTemplate(b, i).Some? ==> AbsSum(PureTemplate(b, i).value) == Abs(b.areas[i])
  {
    ScaleNonzero(b.pures[i], b.pureCS[i]);
  }

  /** After the whole decomposition, pure sample `i` is recorded as a
      signal with its raw counts and area; its template is both stored and
      written under `ggH_0PM_` and its name when it exists, and otherwise
      the stored entry is whatever was there before and nothing is
      written. */
  lemma PureRecorded(b: Batch, o: Outputs, i: nat)
    requires WellFormed(b) && o.file == map[] && i < 3
    ensures Lookup(Decomposed(b, o, 6).signals, StringForms[i]) == Some(Sample(b.pures[i], b.areas[i]))
    ensures Lookup(Decomposed(b, o, 6).file, FileName(StringForms[i], "")) == PureTemplate(b, i)
    ensures Lookup(Decomposed(b, o, 6).scaled, StringForms[i]) ==
      if PureTemplate(b, i).Some? then PureTemplate(b, i) else Lookup(o.scaled, StringForms[i])
  {
    var f := StringForms[i];
    FormsDistinct();
    LaterStepsElsewhere(b, o, 0, 6, f);
    var o0 := PureStep(b, 0, o);
    var o1 := PureStep(b, 1, o0);
    if i == 0 {
      PureStepElsewhere(b, 1, o0, f);
      PureStepElsewhere(b, 2, o1, f);
    } else if i == 1 {
      PureStepElsewhere(b, 0, o, f);
      PureStepElsewhere(b, 2, o1, f);
    } else {
      PureStepElsewhere(b, 0, o, f);
      PureStepElsewhere(b, 1, o0, f);
    }
  }

  /** After the whole decomposition, interference sample `n` is recorded as
      a signal with its histogram at its cross section and the root of its
      pair, its template is stored, and its positive and negative parts
      are written exactly when they have a nonzero bin. */
  lemma InterferenceRecorded(b: Batch, o: Outputs, n: nat)
    requires WellFormed(b) && o.file == map[] && n < 6
    ensures Lookup(Decomposed(b, o, 6).signals, StringForms[n + 3]) ==
      Some(Sample(InterfScaled(b, n), b.roots[n / 2]))
    ensures Lookup(Decomposed(b, o, 6).scaled, StringForms[n + 3]) == Some(Term(b, n))
    ensures Lookup(Decomposed(b, o, 6).file, FileName(StringForms[n + 3], "_pos")) == PosTemplate(Term(b, n))
    ensures Lookup(Decomposed(b, o, 6).file, FileName(StringForms[n + 3], "_neg")) == NegTemplate(Term(b, n))
  {
    var f := StringForms[n + 3];
    var d := Decomposed(b, o, n);
    FormsDistinct();
    PuresElsewhere(b, o, f);
    LaterStepsElsewhere(b, o, 0, n, f);
    assert Lookup(d.file, FileName(f, "_pos")) == None == Lookup(d.file, FileName(f, "_neg"));
    InterferenceStepRecorded(b, d, n);
    LaterStepsElsewhere(b, o, n + 1, 6, f);
    FormPairs();
  }

  /** The pure steps leave the names of the interference samples alone. */
  lemma PuresElsewhere(b: Batch, o: Outputs, form: string)
    requires Shaped(b) && form in StringForms[3..]
    ensures Entries(Pures(b, o), form) == Entries(o, form)
    ensures Lookup(Pures(b, o).signals, form) == Lookup(o.signals, form)
  {
    FormsDistinct();
    var o0 := PureStep(b, 0, o);
    var o1 := PureStep(b, 1, o0);
    PureStepElsewhere(b, 0, o, form);
    PureStepElsewhere(b, 1, o0, form);
    PureStepElsewhere(b, 2, o1, form);
  }

  /** What one interference step records under its sample's names, when
      none of its templates was written before. */
  lemma InterferenceStepRecorded(b: Batch, d: Outputs, n: nat)
    requires WellFormed(b) && n < 6
    requires Lookup(d.file, FileName(StringForms[n + 3], "_pos")) == None
    requires Lookup(d.file, FileName(StringForms[n + 3], "_neg")) == None
    ensures Lookup(InterferenceStep(b, n, d).signals, StringForms[n + 3]) ==
      Some(Sample(InterfScaled(b, n), b.roots[PairOf(StringForms[n + 3])]))
    ensures Entries(InterferenceStep(b, n, d), StringForms[n + 3])[0] == Some(Term(b, n))
    ensures Entries(InterferenceStep(b, n, d), StringForms[n + 3])[2] == PosTemplate(Term(b, n))
    ensures Entries(InterferenceStep(b, n, d), StringForms[n + 3])[3] == NegTemplate(Term(b, n))
  {
    var f := StringForms[n + 3];
    FormsDistinct();
    InterferenceRecordOwn(d, f, Sample(InterfScaled(b, n), b.roots[PairOf(f)]), Term(b, n));
  }

  lemma InterferenceRecordOwn(o: Outputs, f: string, signal: Sample, t: seq<real>)
    requires f in StringForms
    requires Lookup(o.file, FileName(f, "_pos")) == None && Lookup(o.file, FileName(f, "_neg")) == None
    ensures Lookup(InterferenceRecord(o, f, signal, t).signals, f) == Some(signal)
    ensures Entries(InterferenceRecord(o, f, signal, t), f)[0] == Some(t)
    ensures Entries(InterferenceRecord(o, f, signal, t), f)[2] == PosTemplate(t)
    ensures Entries(InterferenceRecord(o, f, signal, t), f)[3] == NegTemplate(t)
  {
    FileNamesDistinct(f, "_pos", f, "_neg");
  }

  /** A template with absolute area `r` is exactly its positive part minus
      its negative part, their areas add up to `r`, and a part is written
      exactly when the template has a bin of that sign. */
  lemma TemplateSplit(t: seq<real>)
    ensures Sub(PosPart(t), NegPart(t)) == t
    ensures Sum(PosPart(t)) + Sum(NegPart(t)) == AbsSum(t)
    ensures PosTemplate(t).Some? <==> AnyPositive(t)
    ensures NegTemplate(t).Some? <==> AnyNegative(t)
  {
    AbsSumSplits(t);
    forall i | 0 <= i < |t| ensures Sub(PosPart(t), NegPart(t))[i] == t[i] {
      SplitRecombines(t, i);
    }
    if AnyPositive(t) {
      var j :| 0 <= j < |t| && t[j] > 0.0;
      assert PosPart(t)[j] != 0.0;
    }
    if AnyNegative(t) {
      var j :| 0 <= j < |t| && t[j] < 0.0;
      assert NegPart(t)[j] != 0.0;
    }
  }

  /** Each interference template has the root of its pair as its absolute
      area, so the square of that area is the product of the two pure
      areas; its positive and negative parts recombine to it and their
      areas add up to the root. */
  lemma InterferenceSplit(b: Batch, n: nat)
    requires WellFormed(b) && n < 6
    ensures AbsSum(Term(b, n)) == b.roots[n / 2]
    ensures AbsSum(Term(b, n)) * AbsSum(Term(b, n)) == b.areas[Members(n / 2).0] * b.areas[Members(n / 2).1]
    ensures Sub(PosPart(Term(b, n)), NegPart(Term(b, n))) == Term(b, n)
    ensures Sum(PosPart(Term(b, n))) + Sum(NegPart(Term(b, n))) == b.roots[n / 2]
    ensures PosTemplate(Term(b, n)).Some? <==> AnyPositive(Term(b, n))
    ensures NegTemplate(Term(b, n)).Some? <==> AnyNegative(Term(b, n))
  {
    FormPairs();
    ScaleArea(Residual(b, n), b.roots[n / 2]);
    TemplateSplit(Term(b, n));
  }

  /** The names the decomposition may write to the output file. */
  function TemplateNames(): set<string> {
    (set i | 0 <= i < 3 :: FileName(StringForms[i], ""))
    + (set j | 3 <= j < 9 :: FileName(StringForms[j], "_pos"))
    + (set j | 3 <= j < 9 :: FileName(StringForms[j], "_neg"))
  }

  lemma PureRecordNames(o: Outputs, f: string, signal: Sample, template: Option<seq<real>>, k: string)
    requires k != f
    ensures Lookup(PureRecord(o, f, signal, template).signals, k) == Lookup(o.signals, k)
    ensures Lookup(PureRecord(o, f, signal, template).scaled, k) == Lookup(o.scaled, k)
    ensures k in PureRecord(o, f, signal, template).file ==> k in o.file || k == FileName(f, "")
  {
  }

  lemma InterferenceRecordNames(o: Outputs, f: string, signal: Sample, t: seq<real>, k: string)
    requires k != f
    ensures Lookup(InterferenceRecord(o, f, signal, t).signals, k) == Lookup(o.signals, k)
    ensures Lookup(InterferenceRecord(o, f, signal, t).scaled, k) == Lookup(o.scaled, k)
    ensures k in InterferenceRecord(o, f, signal, t).file ==>
      k in o.file || k == FileName(f, "_pos") || k == FileName(f, "_neg")
  {
  }

  /** The decomposition writes nothing to the file but the templates of the
      nine samples, and leaves every dictionary entry of another name as
      it was. */
  lemma {:induction false} DecomposedNames(b: Batch, o: Outputs, m: nat, k: string)
    requires WellFormed(b) && m <= 6 && k !in StringForms
    ensures Lookup(Decomposed(b, o, m).signals, k) == Lookup(o.signals, k)
    ensures Lookup(Decomposed(b, o, m).scaled, k) == Lookup(o.scaled, k)
    ensures k in Decomposed(b, o, m).file ==> k in o.file || k in TemplateNames()
    decreases m
  {
    if m > 0 {
      var d := Decomposed(b, o, m - 1);
      var f := StringForms[m + 2];
      DecomposedNames(b, o, m - 1, k);
      InterferenceRecordNames(d, f, Sample(InterfScaled(b, m - 1), b.roots[PairOf(f)]), Term(b, m - 1), k);
      assert FileName(f, "_pos") in TemplateNames();
      assert FileName(f, "_neg") in TemplateNames();
    } else {
      var o0 := PureStep(b, 0, o);
      var o1 := PureStep(b, 1, o0);
      PureRecordNames(o, StringForms[0], Sample(b.pures[0], b.areas[0]), PureTemplate(b, 0), k);
      PureRecordNames(o0, StringForms[1], Sample(b.pures[1], b.areas[1]), PureTemplate(b, 1), k);
      PureRecordNames(o1, StringForms[2], Sample(b.pures[2], b.areas[2]), PureTemplate(b, 2), k);
      assert FileName(StringForms[0], "") in TemplateNames();
      assert FileName(StringForms[1], "") in TemplateNames();
      assert FileName(StringForms[2], "") in TemplateNames();
    }
  }
}
