# Combine template creation, modelled in Dafny

This project models the numerical and naming core of the HexUtils tools.
These tools build the templates for Higgs Combine: signal, interference
and background histograms, written under the names a datacard expects.
The project has three parts.

- **Signed histogram arithmetic** (`histograms.dfy`, `template_helper.dfy`,
  `interference.dfy`, `template_creator.dfy`):
  - `scale` rescales a histogram to a target absolute area and keeps every
    bin's sign.
  - The 1-D template creator stacks its backgrounds in
    `scale_and_add_bkgs`. The running total is the first background's own
    array, so with scaling the first stored histogram is the total.
  - The three-resonance interference creator does the decomposition:
    - it scales every pure sample to its cross section, then to its area;
    - from each interference sample, scaled to its cross section, it
      subtracts its two pure samples;
    - it rescales the residual to the geometric mean of their areas;
    - it splits the result into a positive and a negative template, each
      written only when it has a nonzero bin.
  - The creator is a class (`TemplateCreator.Creator`). Its dictionaries
    are fields that the methods reassign. The running total and the
    in-place subtraction work on arrays.
  - The decomposition is proved against a value-level specification,
    `Interference.Decomposed`. That specification is a sequence of updates
    to the signal dictionaries and the output file.
- **Unrolling a 2-D histogram** (`unroll.dfy`): `Unroll_2D_OnShell` over an
  `array2<real>` grid.
  - A scan pass fills the empty cells of background grids in place and
    detects negative content.
  - An unroll pass sends cell `(x, y)` to bin `y * xbins + x` of a positive
    or a negative histogram.
  - A three-way renaming policy follows, with its `data_obs` override, then
    the "write only if the integral is positive" decision.
  - `name_correctly`, the token-walking builder of coupling names, lives in
    `template_helper.dfy`.
- **The three-resonance driver** (`mass_interf_3_reso.dfy`):
  - `place_that_list` sorts sample file names into the nine argument slots
    of the interference creator by substring tests;
  - samples and backgrounds are keyed by their file names.

`strings.dfy` holds the Python string operations the code relies on:
`in`, `find`, `split`, joining, `list.insert` and `replace`.
`wrappers.dfy` holds `Option`, which models the source's error paths, such
as an index error or a missing key.

Three places where the code behaves in a way one might not expect; the
model follows the code:

- **Empty-bin floors compound.** The scan pass floors an empty background
  cell at `0.1 * Integral() / nbins`, and `Integral()` already includes the
  floors placed earlier in the same pass. So in `[5, 0, 0, -3]` the floors
  are `0.05` and then `0.05125`, not `0.05` twice (`Unroll.FillZerosExample`).
- **An empty interference residual is not skipped.** Scaling it divides
  zero by zero in the source. The model excludes that input with the
  precondition `Interference.WellFormed`.
- **The second-and-third pair has its phases swapped.**
  `place_that_list` sends the `BW2`/`BW3` names to slots 7 and 8 the other
  way round from the other pairs. The pi/2 name fills the `BW23_0_0`
  argument and the phase-0 name fills `BW23_0_05`. The model keeps the
  code's slots and states the swap in `MassInterfThreeReso.PairSlots`.

## Model

| member | source | states |
|---|---|---|
| Strings.Find | Template_creator.py:34 | `find` is -1 exactly when the pattern does not occur; otherwise the pattern sits at the result and no earlier position starts with it |
| Strings.BeforeFirst | Template_creator.py:45 | `s.split(c)[0]` is a prefix of `s` free of `c`, and it is followed by `c` whenever it is shorter than `s` |
| Strings.AfterLast | create_1D_mass_interf_template_3_reso.py:89 | `s.split(c)[-1]` is a suffix of `s` free of `c`, and it is preceded by `c` whenever it is shorter than `s` |
| Strings.SplitTokensAvoidSeparator | Template_helper_methods.py:142 | no token of `split('_')` contains `_` |
| Strings.JoinSplit | Template_helper_methods.py:142-146 | rebuilding a name from its `_`-tokens with `_` gives the name back |
| Strings.SplitJoin | Template_helper_methods.py:142-146 | joining separator-free tokens and splitting again gives the tokens back |
| Strings.SplitThree | Template_helper_methods.py:142 | a name made of three separator-free parts splits into exactly those parts |
| Strings.InsertAt | Template_helper_methods.py:143 | `insert(2, w)` puts `w` at index 2, shifts the rest, and appends when the list has fewer than two tokens |
| Strings.ReplaceAbsent | Template_helper_methods.py:166-167 | `replace` changes nothing when the pattern does not occur |
| Strings.ReplaceAllRemoves | Template_helper_methods.py:166-167 | replacing `0Xff_` by `0Mff_` (any pattern whose replacement cannot start a new occurrence) leaves no occurrence of the pattern |
| Strings.ReplaceAllFreePrefix | Template_helper_methods.py:166-167 | text before the first character of the pattern is copied unchanged |
| Strings.ReplaceAllFront | Template_helper_methods.py:166-167 | an occurrence at the front is replaced and scanning resumes after it |
| Strings.StartsWithCons | Template_helper_methods.py:166-167 | a text `c + t` starts with `w` exactly when `c` is `w`'s first character and `t` starts with the rest of `w` |
| Strings.ReplacedStartsWith | Template_helper_methods.py:166-167 | a replaced text starts with text free of the pattern's first character only if the input does |
| Strings.NotContainsAppend | Template_helper_methods.py:171 | a pattern occurs in `a + t` only if it occurs in `t` or starts inside `a` |
| Strings.ContainsAppendLeft | Template_helper_methods.py:113 | an occurrence in a suffix is an occurrence in the whole text |
| Histograms.SplitRecombines | Template_creator.py:388-389 | `max(t,0) - (-min(t,0))` gives back every bin, and one of the two parts is zero in every bin |
| Histograms.AbsSumSplits | Template_creator.py:388-389 | the absolute area is the area of the positive part plus that of the negative part |
| Histograms.AbsSumPositive | Template_creator.py:338 | `np.any(h)` holds exactly when the absolute area of `h` is positive |
| Histograms.PosPartArea | Template_helper_methods.py:178 | the positive histogram has a positive integral exactly when some bin is positive |
| Histograms.NegPartArea | Template_helper_methods.py:180 | the negative histogram has a positive integral exactly when some bin is negative |
| Histograms.NonNegativeSumPositive | Template_helper_methods.py:178-181 | a sum of non-negative bins is non-negative, and it is positive exactly when some bin is |
| Histograms.SumPointwiseAdd | Template_creator.py:184 | adding histograms bin by bin adds their areas |
| Histograms.SumTimes | Template_helper_methods.py:28 | multiplying every bin by `k` multiplies the area by `k` |
| Histograms.AbsSumTimes | Template_helper_methods.py:28 | multiplying every bin by `k` multiplies the absolute area by `abs(k)` |
| Histograms.SumUpdate | Template_helper_methods.py:86-90 | setting one cell changes the grid's integral by the difference |
| TemplateHelperMethods.ScaleIsTimes | Template_helper_methods.py:23-28 | `sign * abs * scaleto / sum(abs)` multiplies every bin by the one factor `scaleto / sum(abs)` |
| TemplateHelperMethods.ScaleArea | Template_helper_methods.py:23-28 | the scaled histogram has the same bin count and absolute area `abs(scaleto)`, which is the target itself for a non-negative target |
| TemplateHelperMethods.ScaleKeepsSign | Template_helper_methods.py:25-28 | for a positive target every bin keeps its sign, so empty bins stay empty |
| TemplateHelperMethods.ScaleIdempotent | Template_helper_methods.py:25-28 | scaling to the same positive area twice is the same as scaling once |
| TemplateHelperMethods.ScaleNonzero | Template_helper_methods.py:28 | a scaled histogram has a nonzero bin exactly when the target is nonzero |
| TemplateHelperMethods.NameCorrectly | Template_helper_methods.py:39-46 | the token loop gives `CouplingName`, which starts with `ggH_` and appends `g`, the last character and the next token for every `ghzpzp` token; a marked last token is the index error (`None`) |
| TemplateHelperMethods.CouplingSuffixFails | Template_helper_methods.py:43-45 | walking from any token, the index error happens exactly when the last token is marked |
| TemplateHelperMethods.CouplingNameDefined | Template_helper_methods.py:40-46 | a name is produced exactly when the last `_`-token lacks `ghzpzp` |
| TemplateHelperMethods.CouplingSuffixUnmarked | Template_helper_methods.py:42-45 | tokens without `ghzpzp` append nothing |
| TemplateHelperMethods.CouplingNameUnmarked | Template_helper_methods.py:40-46 | a name without any `ghzpzp` token gives `ggH_` |
| TemplateHelperMethods.CouplingNameExample | Template_helper_methods.py:40-46 | `p_ghzpzp2_0p5` gives `ggH_g20p5` |
| Interference.Members | Template_creator.py:368-382 | each pair names two different pure samples among the three; the first is BW1 for the `12` and `13` pairs, and the second is BW2 only for the `12` pair |
| Interference.FormPairs | Template_creator.py:359-382 | the `12` test picks BW1+BW2 for the first two interference samples, the `13` test picks BW1+BW3 for the next two, and the rest get BW2+BW3 |
| Interference.Pair12 | Template_creator.py:368 | the `BW12_…` names pass the `12` test |
| Interference.Pair13 | Template_creator.py:373 | the `BW13_…` names fail the `12` test and pass the `13` test |
| Interference.Pair23 | Template_creator.py:378 | the `BW23_…` names fail both tests |
| Interference.FormsDistinct | Template_creator.py:329-330 | the nine sample names are distinct, and each ends in `0` or `5` |
| Interference.FileNamesDistinct | Template_creator.py:340-394 | output names built from different samples or suffixes never collide |
| Interference.PureTemplate | Template_creator.py:336-341 | a pure template, when there is one, has absolute area equal to the sample's area |
| Interference.PureTemplateWritten | Template_creator.py:336-341 | a pure template is written exactly when the sample's cross section is nonzero, and then has the sample's area |
| Interference.TemplateSplit | Template_creator.py:388-394 | `pos - neg` is the template, their areas add up to its absolute area, and each part is written exactly when the template has a bin of that sign |
| Interference.InterferenceSplit | Template_creator.py:366-394 | each interference template has absolute area `sqrt(area_a*area_b)` for its pair; its parts recombine to it, and their areas add up to that root |
| Interference.PureRecordElsewhere | Template_creator.py:334-341 | recording a pure sample touches no entry of another sample |
| Interference.InterferenceRecordElsewhere | Template_creator.py:370-394 | recording an interference sample touches no entry of another sample |
| Interference.PureStepElsewhere | Template_creator.py:334-357 | a pure step leaves the entries of every other sample alone |
| Interference.InterferenceStepElsewhere | Template_creator.py:361-394 | an interference step leaves the entries of every other sample alone |
| Interference.LaterStepsElsewhere | Template_creator.py:361-394 | a run of interference steps leaves the entries of every sample it does not process alone |
| Interference.PuresElsewhere | Template_creator.py:334-357 | the pure steps leave the interference samples' entries alone |
| Interference.PureRecorded | Template_creator.py:334-357 | after the whole loop each pure sample's signal is its raw counts with its area; its template is written under `ggH_0PM_<name>` and stored exactly when it exists, and otherwise the stored entry is unchanged |
| Interference.InterferenceStepRecorded | Template_creator.py:363-394 | one interference step records the signal, the stored template, and the positive and negative parts under the sample's own names |
| Interference.InterferenceRecordOwn | Template_creator.py:370-394 | an interference record stores its signal and template and writes exactly the non-empty parts |
| Interference.InterferenceRecorded | Template_creator.py:361-394 | after the whole loop each interference sample's signal is its cross-section-scaled histogram with its pair's root area; its template is stored, and `_pos`/`_neg` are written exactly when non-empty |
| Interference.PureRecordNames | Template_creator.py:334-341 | recording a pure sample writes no file entry except its own name |
| Interference.InterferenceRecordNames | Template_creator.py:370-394 | recording an interference sample writes no file entry except its `_pos`/`_neg` names |
| Interference.DecomposedNames | Template_creator.py:332-394 | the loop writes only the templates of the nine samples and changes no dictionary entry of another name |
| TemplateCreator.Zip | Template_creator.py:64 | `zip` is as long as its shortest argument and pairs the entries index by index |
| TemplateCreator.OrderOfKeys | Template_creator.py:59-65 | the dictionary's iteration order lists every key exactly once |
| TemplateCreator.DictOfLast | Template_creator.py:64-65 | a name is a key exactly when some entry carries it, and its value is the value of its last entry |
| TemplateCreator.OrderOfGrows | Template_creator.py:64-65 | assigning later entries never moves a name already placed |
| TemplateCreator.OutputDirectory | Template_creator.py:42-44 | the output directory is the absolute path, with a `/` added only when it does not already end in one |
| TemplateCreator.HexUtilsPath | Template_creator.py:32-36 | the path is empty exactly when the cwd lacks `HexUtils`; otherwise it is the cwd's prefix ending at its first `HexUtils` |
| TemplateCreator.StackStep | Template_creator.py:184 | stacking one more background adds it bin by bin |
| TemplateCreator.StackColumn | Template_creator.py:177-184 | each bin of the total is the sum of that bin over all backgrounds |
| TemplateCreator.StackArea | Template_creator.py:177-184 | the area of the total is the sum of the backgrounds' areas |
| TemplateCreator.ScaledCountsArea | Template_creator.py:175 | non-negative counts scaled to a non-negative area sum to that area |
| TemplateCreator.ScaledStackArea | Template_creator.py:170-186 | with scaling, non-negative backgrounds stack to a total whose area is the sum of their target areas |
| TemplateCreator.ContributionsAligned | Template_creator.py:173-180 | every background is histogrammed on the bins of the first |
| TemplateCreator.Creator.constructor | Template_creator.py:32-65 | the directory ends in `/`, `fname` is cut at its first `.`, the HexUtils path is set, and `bkgs` is the dictionary built from the zipped names, samples and areas, with its key order; the other dictionaries start empty |
| TemplateCreator.Creator.AddInto | Template_creator.py:184 | `overall += counts` in place, bin by bin |
| TemplateCreator.Creator.SubInto | Template_creator.py:372 | `term -= counts` in place, bin by bin |
| TemplateCreator.Creator.RecordPure | Template_creator.py:334-341 | one pure block is the specification's pure step, and it returns the histogram at its cross section |
| TemplateCreator.Creator.RecordPures | Template_creator.py:334-357 | the three pure blocks are the specification's pure steps, and they return the three histograms at their cross sections |
| TemplateCreator.Creator.RecordInterference | Template_creator.py:361-394 | one loop iteration is the specification's interference step: signal before subtraction, in-place subtraction of the cross-section-scaled pair, rescaling, storing, and split writes |
| TemplateCreator.Creator.WriteTemplates | Template_creator.py:388-394 | `pos` is written when it has a nonzero bin, and `neg` likewise, independently |
| TemplateCreator.Creator.DecomposeInterference | Template_creator.py:332-394 | the signal dictionaries and the recreated output file end as `Decomposed(…, 6)` |
| TemplateCreator.Creator.ScaleAndAddBkgs | Template_creator.py:159-186 | the returned array holds the bin-wise sum of the (scaled) backgrounds in dictionary order. With scaling, the first background's stored entry is that very array (aliasing), and every later one has its own array holding its scaled histogram. Without scaling nothing is stored, and no backgrounds is the `[0]` index error |
| TemplateCreator.KeySetMembers | Template_creator.py:176-183 | the names stored by the loop are exactly the listed names |
| TemplateCreator.StackBackgrounds | Template_creator.py:170-186 | the loop returns a fresh total equal to the stack of the contributions; it stores exactly the listed backgrounds, with the first aliasing the total, and leaves other keys alone |
| TemplateCreator.StackFirst | Template_creator.py:172-177 | before the loop the total is the first contribution, stored under its name when scaling |
| TemplateCreator.StackPass | Template_creator.py:179-184 | one loop pass stores the next background in its own array and adds it into the total |
| TemplateCreator.StackedStep | Template_creator.py:179-184 | one pass keeps the loop's invariant one background further on |
| TemplateCreator.StoredAtEnd | Template_creator.py:179-186 | after the loop the total stacks every contribution and the dictionary holds every scaled background |
| TemplateCreator.StackOne | Template_creator.py:180-184 | storing a fresh array under a name and adding into the total leaves every other stored array's contents intact |
| Unroll.FlattenLength | Template_helper_methods.py:72-73 | the unrolled histogram has `xbins * ybins` bins |
| Unroll.FlattenIndex | Template_helper_methods.py:75-106 | cell `(x, y)`, visited with `y` outer and `x` inner, lands at index `y * xbins + x` |
| Unroll.FlattenUpdate | Template_helper_methods.py:90 | setting cell `(x, y)` changes unrolled index `y * xbins + x` and nothing else |
| Unroll.RowsAfterWrite | Template_helper_methods.py:90 | `SetBinContent` on one cell changes exactly that cell of the grid |
| Unroll.ScanCell | Template_helper_methods.py:79-93 | one visit of the scan pass fills the `k`-th cell when it is empty in a background grid, and reports whether it was negative |
| Unroll.FillScan | Template_helper_methods.py:75-93 | the scan pass leaves the grid as `FillZeros` of its old content (filling only `bkg` grids), and `has_negative` holds exactly when some original cell is negative |
| Unroll.FillPrefixAhead | Template_helper_methods.py:77-90 | cells not yet visited keep their content |
| Unroll.FillPrefixNoFill | Template_helper_methods.py:85 | a grid whose name lacks `bkg` is not changed |
| Unroll.FillPrefixKeepsNonzero | Template_helper_methods.py:84 | only empty cells change |
| Unroll.FloorSign | Template_helper_methods.py:88 | a floor has the sign of the current integral |
| Unroll.NegativeSumHasNegative | Template_helper_methods.py:86-88 | a negative integral needs a negative cell |
| Unroll.FillPrefixNegative | Template_helper_methods.py:84-93 | filling creates no negative content that was not there |
| Unroll.FillPrefixPositive | Template_helper_methods.py:84-90 | in a non-negative background grid with a positive integral, every visited cell is positive and the integral does not shrink |
| Unroll.FillZerosFacts | Template_helper_methods.py:82-93 | without `bkg` nothing changes, nonzero cells keep their content, and negative content is present after the pass exactly when it was before |
| Unroll.FillZerosPositive | Template_helper_methods.py:84-90 | in a non-negative background grid with a positive integral, no empty cell is left |
| Unroll.FillZerosExample | Template_helper_methods.py:84-90 | the floors compound: `[5, 0, 0, -3]` becomes `[5, 0.05, 0.05125, -3]` |
| Unroll.UnrollCell | Template_helper_methods.py:97-106 | one visit puts the `k`-th cell into bin `k` of `pos` when it is not negative, and its magnitude into bin `k` of `neg` otherwise |
| Unroll.UnrollPass | Template_helper_methods.py:95-106 | `temp_pos` and `temp_neg` are the positive and negative parts of the unrolled grid, so `pos - neg` is the content and both are non-negative |
| Unroll.UnrollHistogram | Template_helper_methods.py:69-181 | one key: the grid ends filled, and the histograms written are `UnrolledRecords` of the original content |
| Unroll.UnrolledRecordsWritten | Template_helper_methods.py:178-181 | the negative histogram is written exactly when some original cell is negative, and the positive one exactly when some filled cell is positive |
| Unroll.MarkedNamesKept | Template_helper_methods.py:113-171 | a marked name without `0Xff_`, `data` or `Data` keeps its name for both outputs, with or without negative content |
| Unroll.MarkedKeyKept | Template_helper_methods.py:113-171 | a name with `0PM`, `0M` or `bkg` and without the letters of `0Xff_`, `data` and `Data` is kept |
| Unroll.UnrolledKeysKeepNames | Template_helper_methods.py:66-171 | `ggH_0PM`, `ggH_0M` and `bkg_ggzz` keep their names in every case |
| Unroll.UnmarkedNamesTagged | Template_helper_methods.py:139-162 | a name without a marker is tagged `positive`/`negative` unless the data override applies |
| Unroll.UnmarkedByLetters | Template_helper_methods.py:113 | a name without the letters `k`, `D`, `0` and `L` has no marker |
| Unroll.TaggedThird | Template_helper_methods.py:141-146 | a three-token name mentioning `up` gets the word as its third token |
| Unroll.TaggedUp | Template_helper_methods.py:141-146 | a word tagged onto `<a>_up_<d>` becomes its third token |
| Unroll.TaggedUpName | Template_helper_methods.py:139-162 | an unmarked `<a>_up_<d>` becomes `<a>_up_positive_<d>` and `<a>_up_negative_<d>` |
| Unroll.TaggedDistinct | Template_helper_methods.py:141-158 | tagging with two different words gives two different names |
| Unroll.UnrolledNames | Template_helper_methods.py:108-174 | the two histograms get the same name except in the tagging branch, where they are the `positive` and `negative` tags of the name |
| Unroll.DataOverride | Template_helper_methods.py:171-174 | when the renamed negative histogram mentions `data` or `Data`, both are called `data_obs`; otherwise the three-way renaming stands |
| Unroll.DataTagged | Template_helper_methods.py:139-174 | an unmarked name starting with `data` is tagged `..._negative` and then overridden: both histograms are `data_obs` |
| Unroll.ReplacedNames | Template_helper_methods.py:164-174 | a marked name without negative content is renamed with `0Xff_` replaced by `0Mff_` for both histograms, and no `0Xff_` is left |
| Unroll.ReplacedExample | Template_helper_methods.py:164-170 | `<a>0Xff_<b>` with a marker in `b` becomes `<a>0Mff_<b>` for both histograms |
| Unroll.ReplacedExampleName | Template_helper_methods.py:164-170 | `ggH_0Xff_0PH` without negative content becomes `ggH_0Mff_0PH` for both histograms |
| Unroll.MarkerAppendLeft | Template_helper_methods.py:113 | a marker anywhere in the name marks it |
| Unroll.RetaggedNamesDiffer | Template_helper_methods.py:139-174 | in the tagging branch the two outputs get different names, unless both become `data_obs` |
| Unroll.OutputPath | Template_helper_methods.py:58-63 | the output path is `None` exactly for an empty directory (the `[-1]` index error) |
| Unroll.RecordsForStep | Template_helper_methods.py:66-181 | one more key appends exactly that key's histograms |
| Unroll.GridContents | Template_helper_methods.py:66-67 | every present key has the content of its grid |
| Unroll.PresentPrefix | Template_helper_methods.py:66-69 | the keys before the first missing one are all present, and the key it stops at is missing |
| Unroll.PresentPrefixIs | Template_helper_methods.py:66-69 | the present prefix is the only length whose keys are all present and which ends at a missing key or at the end |
| Unroll.MissingSecondKey | Template_helper_methods.py:66-69 | with `ggH_0M` missing, the file keeps exactly the histograms of `ggH_0PM` |
| Unroll.UnrollKeys | Template_helper_methods.py:66-181 | the key loop succeeds exactly when every key is present; in every case it has written, in order and from the original grids, the records of the keys before the first missing one, which is all keys on success |
| Unroll.UnrollOnShell | Template_helper_methods.py:58-183 | it fails before creating the file exactly for an empty directory; otherwise the path is `<dir>/<fname up to .>_unrolled.root`, the output is complete exactly when every key is present, and it holds the histograms of the keys before the first missing one (all three, in order, when complete) |
| MassInterfThreeReso.ContainsPrefix | create_1D_mass_interf_template_3_reso.py:37 | a name with `_phi_0_` contains `_phi_0`, so `find` returns a real index |
| MassInterfThreeReso.SlotOf | create_1D_mass_interf_template_3_reso.py:23-45 | a slot is always an index in 0..8 |
| MassInterfThreeReso.Insert | create_1D_mass_interf_template_3_reso.py:25 | `insertionList[k] = filename` writes slot `k` only, and an index past the end is the error |
| MassInterfThreeReso.PhaseZeroRest | create_1D_mass_interf_template_3_reso.py:37 | the second phase-0 test looks after the first `_phi_0` |
| MassInterfThreeReso.PlaceThatList | create_1D_mass_interf_template_3_reso.py:10-45 | the list changes as `Place` says: the name goes into its slot, a name with no slot leaves the list alone, and a slot past the end is the error |
| MassInterfThreeReso.PlaceOneSlot | create_1D_mass_interf_template_3_reso.py:23-45 | at most one slot changes, and it then holds the name; the call fails exactly when the slot is past the end |
| MassInterfThreeReso.PlaceEachSlots | create_1D_mass_interf_template_3_reso.py:94-95 | after all the calls each slot holds the last name that belongs there, or what it held before |
| MassInterfThreeReso.PlaceEachFails | create_1D_mass_interf_template_3_reso.py:94-95 | the calls fail exactly when some name's slot is past the end |
| MassInterfThreeReso.PlaceAll | create_1D_mass_interf_template_3_reso.py:92-95 | a list of `len(data_samples)` empty slots is filled by placing every name in order, or the index error is reported |
| MassInterfThreeReso.PlacedStopsFailing | create_1D_mass_interf_template_3_reso.py:94-95 | once a call fails, the whole placement fails |
| MassInterfThreeReso.PureNameResonance | create_1D_mass_interf_template_3_reso.py:13-29 | `BW<a>_pure` contains `BW<d>` exactly when `d == a` |
| MassInterfThreeReso.PureNameFacts | create_1D_mass_interf_template_3_reso.py:13-30 | a pure name passes the pure test, mentions only its resonance, and has no pi/2 phase |
| MassInterfThreeReso.PairNameResonance | create_1D_mass_interf_template_3_reso.py:14-43 | `BW<a>_phi_0_BW<c>_phi_<phase>` contains `BW<d>` exactly when `d` is `a` or `c` |
| MassInterfThreeReso.PairNameFacts | create_1D_mass_interf_template_3_reso.py:14-43 | a pair name mentions exactly its two resonances and fails the pure test |
| MassInterfThreeReso.PhaseZeroOf | create_1D_mass_interf_template_3_reso.py:37 | a name whose first `_phi_0_` is followed by another `_phi_0` passes the phase-0 test |
| MassInterfThreeReso.ZeroPairPhase | create_1D_mass_interf_template_3_reso.py:30-43 | a phase-0 pair name fails the pi/2 test and passes the phase-0 test |
| MassInterfThreeReso.HalfPairPhase | create_1D_mass_interf_template_3_reso.py:30 | a pi/2 pair name passes the pi/2 test |
| MassInterfThreeReso.SlotFromTests | create_1D_mass_interf_template_3_reso.py:23-45 | the slot is decided by the tests in order: pure, then pi/2, then phase 0, with the resonance tests inside each |
| MassInterfThreeReso.PureSlots | create_1D_mass_interf_template_3_reso.py:23-29 | `BW1_pure`, `BW2_pure` and `BW3_pure` go to slots 0, 1 and 2 |
| MassInterfThreeReso.PairSlots | create_1D_mass_interf_template_3_reso.py:30-43 | the 12 pair goes to slots 3/4 and the 13 pair to 5/6 (phase 0 / pi/2); the 23 pair goes to 8/7, swapped |
| MassInterfThreeReso.SampleKey | create_1D_mass_interf_template_3_reso.py:89 | a sample key contains no `/` |
| MassInterfThreeReso.BkgKey | create_1D_mass_interf_template_3_reso.py:101 | a background key contains no `/`, `.` or `_` |
| MassInterfThreeReso.AfterLastOf | create_1D_mass_interf_template_3_reso.py:89 | the text after the last separator is the final component |
| MassInterfThreeReso.BeforeFirstOf | create_1D_mass_interf_template_3_reso.py:101 | the text before the first separator is the leading separator-free part |
| MassInterfThreeReso.BeforeFirstNone | create_1D_mass_interf_template_3_reso.py:101 | a text without the separator is kept whole |
| MassInterfThreeReso.SampleKeyOf | create_1D_mass_interf_template_3_reso.py:89 | the key of `<dir>/<name>` is `name` |
| MassInterfThreeReso.BkgKeyOf | create_1D_mass_interf_template_3_reso.py:101 | the key of `<dir>/<key>_<rest>` or `<dir>/<key>.<rest>` is `key` |

## Left out

- ROOT and uproot file I/O is not modelled:
  - `TFile.Open`, `RECREATE`, `cd` and `Write`;
  - `uproot.recreate` and the `f[...] =` writes;
  - `extract_branches_from_TTree`.

  Reads become a map from key to grid. Writes become a map from name to
  counts, or a list of written histograms.
- `np.histogram` and the choice of bin edges are a foreign library with
  floating-point edge semantics. Samples are taken as their bin counts on
  the shared edges, and `lowerlim`, `upperlim`, `bins` and `nbins` do not
  appear.
- Floating point is not modelled. Counts are unbounded reals, with no
  TH1F single precision and no rounding. `np.sqrt` of an area product is a
  parameter `root` with `root >= 0 && root * root == area_a * area_b`.
- TemplateHelperMethods.Scale: an all-zero histogram, which is NaN in the
  source, is excluded by the precondition that its absolute area is
  positive.
- TemplateCreator.Creator.DecomposeInterference: its precondition
  `WellFormed` also rules out a pure or interference sample with no
  entries, and an empty residual, because each would be scaled by zero.
- TemplateCreator.Creator.ScaleAndAddBkgs: it requires the backgrounds to
  be on the same bins, as `np.histogram` with the first background's edges
  ensures. With scaling, no background may be empty. The tuple
  `(counts, bins)` is returned and stored as its counts alone.
- TemplateCreator.Creator.RecordPure: the signal dictionary records the
  pure sample's counts, not the raw sample array `np.array(BW1_0_0)`.
- TemplateCreator.Creator.constructor:
  - `os.path.abspath` and `os.getcwd` are given as strings;
  - `warnings.warn` is not modelled;
  - `lowerlim`, `upperlim`, `dimension`, `discr_range` and the weight and
    discriminant dictionaries, which the core never reads, are not kept.
- `temp_pos.SetBinError` (Template_helper_methods.py:105) is not modelled.
  It is ROOT-specific, and only the bin contents are written.
- The clamp and refill loop of Template_helper_methods.py:114-134 is not
  modelled. It runs after the unrolled histograms are built and changes
  only the source grid, which is never written. Its prints go with it.
- Unroll.UnrollOnShell takes the histogram's name to be its key, as it is
  for the three keys read. `print` of the dump message is not modelled.
- MassInterfThreeReso.PlaceThatList: the `print("whoops!")` for a name with
  no slot is not modelled. The list is left alone, as in the source.
- Template_creator.py:396 and 429 pass `scaleTo` twice and raise a
  `TypeError`. The decomposition is therefore modelled up to line 394, and
  the background template write is not part of the model.
- The following are not part of this model:
  - the 2-D creator, whose `scale_and_add_bkgs` calls a method that does
    not exist;
  - the unfinished coupling interference creator;
  - `create_datacards`, which shells out;
  - `stackPlot` and `plot_overall_interference`, which plot;
  - the argument parsing and CSV reading of the three-resonance driver,
    apart from lines 89 and 92-101;
  - Mass_interference_helper_methods.py, generated_fits/plot_fit.py and
    source/conf.py.
- The order of evaluation inside `np.sum` is not modelled. Sums are
  exact, so their order does not matter.
