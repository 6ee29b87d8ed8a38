/** The driver for the three-resonance mass templates: the sample file
    names are sorted into the nine argument slots of the interference
    creator by the resonances and phases their names mention, and samples
    and backgrounds are keyed by their file names. */
module MassInterfThreeReso {
  import opened Wrappers
  import opened Strings

  /** A string that contains `p` contains every prefix of `p`. */
  lemma {:induction false} ContainsPrefix(s: string, p: string, q: string)
    requires Contains(s, p) && StartsWith(p, q)
    ensures Contains(s, q)
    decreases |s|
  {
    if StartsWith(s, p) {
      assert s[..|q|] == p[..|q|];
    } else {
      ContainsPrefix(s[1..], p, q);
    }
  }

  /** A name with phase 0 on both resonances: `_phi_0_` occurs, and
      `_phi_0` occurs again after the first `_phi_0`. */
  predicate PhaseZero(filename: string) {
    Contains(filename, "_phi_0_")
    && (ContainsPrefix(filename, "_phi_0_", "_phi_0");
        Contains(filename[Find(filename, "_phi_0") + 6..], "_phi_0"))
  }

  /** The slot `place_that_list` puts a file name in, tested in order:
      pure samples by resonance, then names with a pi/2 phase, then names
      with phase 0 twice; any other name has no slot. */
  function SlotOf(filename: string): (r: Option<nat>)
    ensures r.Some? ==> r.value < 9
  {
    if Contains(filename, "_pure") then
      if Contains(filename, "BW1") then Some(0)
      else if Contains(filename, "BW2") then Some(1)
      else Some(2)
    else if Contains(filename, "_phi_pi_over_2") then
      if Contains(filename, "BW2") && Contains(filename, "BW1") then Some(4)
      else if Contains(filename, "BW2") && Contains(filename, "BW3") then Some(7)
      else Some(6)
    else if PhaseZero(filename) then
      if Contains(filename, "BW2") && Contains(filename, "BW1") then Some(3)
      else if Contains(filename, "BW2") && Contains(filename, "BW3") then Some(8)
      else Some(5)
    else None
  }

  /** One call of `place_that_list` on the list: the name is written into
      its slot, a name without a slot leaves the list alone, and a slot
      past the end of the list is an index error (`None`). */
  function Place(list: seq<Option<string>>, filename: string): Option<seq<Option<string>>> {
    match SlotOf(filename)
    case None => Some(list)
    case Some(k) => if k < |list| then Some(list[k := Some(filename)]) else None
  }

  /** `list[k] = filename`, where an index past the end raises. */
  method Insert(list: array<Option<string>>, k: nat, filename: string) returns (ok: bool)
    modifies list
    ensures ok <==> k < list.Length
    ensures list[..] == if ok then old(list[..])[k := Some(filename)] else old(list[..])
  {
    if k >= list.Length {
      return false;
    }
    list[k] := Some(filename);
    ok := true;
  }

  /** `place_that_list(filename)` on the list `insertionList`; `false` is
      the index error. */
  method PlaceThatList(insertionList: array<Option<string>>, filename: string) returns (ok: bool)
    modifies insertionList
    ensures ok <==> Place(old(insertionList[..]), filename).Some?
    ensures insertionList[..] ==
      if ok then Place(old(insertionList[..]), filename).value else old(insertionList[..])
  {
    if Contains(filename, "_pure") {
      if Contains(filename, "BW1") {
        ok := Insert(insertionList, 0, filename);
      } else if Contains(filename, "BW2") {
        ok := Insert(insertionList, 1, filename);
      } else {
        ok := Insert(insertionList, 2, filename);
      }
    } else if Contains(filename, "_phi_pi_over_2") {
      if Contains(filename, "BW2") && Contains(filename, "BW1") {
        ok := Insert(insertionList, 4, filename);
      } else if Contains(filename, "BW2") && Contains(filename, "BW3") {
        ok := Insert(insertionList, 7, filename);
      } else {
        ok := Insert(insertionList, 6, filename);
      }
    } else {
      var zero := false;
      if Contains(filename, "_phi_0_") {
        zero := PhaseZeroRest(filename);
      }
      if zero {
        if Contains(filename, "BW2") && Contains(filename, "BW1") {
          ok := Insert(insertionList, 3, filename);
        } else if Contains(filename, "BW2") && Contains(filename, "BW3") {
          ok := Insert(insertionList, 8, filename);
        } else {
          ok := Insert(insertionList, 5, filename);
        }
      } else {
        ok := true;
      }
    }
  }

  /** The second half of the phase-0 test, evaluated as the source does:
      `"_phi_0" in filename[filename.find('_phi_0') + 6:]`. */
  method PhaseZeroRest(filename: string) returns (r: bool)
    requires Contains(filename, "_phi_0_")
    ensures r == PhaseZero(filename)
  {
    ContainsPrefix(filename, "_phi_0_", "_phi_0");
    var i := Find(filename, "_phi_0");
    r := Contains(filename[i + 6..], "_phi_0");
  }

  /** A placement changes at most one slot: the slot of the name, which
      then holds the name. */
  lemma PlaceOneSlot(list: seq<Option<string>>, filename: string)
    ensures Place(list, filename).Some? ==> |Place(list, filename).value| == |list|
    ensures Place(list, filename).Some? ==> forall j :: 0 <= j < |list| ==>
      Place(list, filename).value[j] == if SlotOf(filename) == Some(j) then Some(filename) else list[j]
    ensures Place(list, filename).None? <==> SlotOf(filename).Some? && SlotOf(filename).value >= |list|
  {
  }

  /** Placing the names one after another; an index error stops it. */
  function PlaceEach(list: seq<Option<string>>, names: seq<string>): Option<seq<Option<string>>>
    decreases |names|
  {
    if |names| == 0 then Some(list)
    else match PlaceEach(list, names[..|names| - 1])
      case None => None
      case Some(l) => Place(l, names[|names| - 1])
  }

  /** The last of the names that goes into slot `k`. */
  function LastIn(names: seq<string>, k: nat): Option<string>
    decreases |names|
  {
    if |names| == 0 then None
    else if SlotOf(names[|names| - 1]) == Some(k) then Some(names[|names| - 1])
    else LastIn(names[..|names| - 1], k)
  }

  /** After placing all the names, each slot holds the last name that
      belongs there, or what it held before if none does. */
  lemma {:induction false} PlaceEachSlots(list: seq<Option<string>>, names: seq<string>)
    requires PlaceEach(list, names).Some?
    ensures |PlaceEach(list, names).value| == |list|
    ensures forall k :: 0 <= k < |list| ==>
      PlaceEach(list, names).value[k] == if LastIn(names, k).Some? then LastIn(names, k) else list[k]
    decreases |names|
  {
    if |names| > 0 {
      PlaceEachSlots(list, names[..|names| - 1]);
      PlaceOneSlot(PlaceEach(list, names[..|names| - 1]).value, names[|names| - 1]);
    }
  }

  /** Placing fails exactly when some name's slot is past the end of the
      list. */
  lemma {:induction false} PlaceEachFails(list: seq<Option<string>>, names: seq<string>)
    ensures PlaceEach(list, names).None? <==>
      exists i :: 0 <= i < |names| && SlotOf(names[i]).Some? && SlotOf(names[i]).value >= |list|
    decreases |names|
  {
    if |names| > 0 {
      var n := |names| - 1;
      PlaceEachFails(list, names[..n]);
      if PlaceEach(list, names[..n]).Some? {
        PlaceEachSlots(list, names[..n]);
        PlaceOneSlot(PlaceEach(list, names[..n]).value, names[n]);
      }
      assert forall i :: 0 <= i < n ==> names[..n][i] == names[i];
    }
  }

  /** The list made for the samples: one empty entry per sample, then
      every sample name placed in order. */
  function Placed(names: seq<string>): Option<seq<Option<string>>> {
    PlaceEach(seq(|names|, _ => None), names)
  }

  /** Lines 92-95 of the driver: `insertionList = [None]*len(data_samples)`
      and `place_that_list` on every sample name; `false` is the index
      error. */
  method PlaceAll(names: seq<string>) returns (insertionList: array<Option<string>>, ok: bool)
    ensures fresh(insertionList) && insertionList.Length == |names|
    ensures ok == Placed(names).Some?
    ensures ok ==> insertionList[..] == Placed(names).value
  {
    insertionList := new Option<string>[|names|](_ => None);
    ghost var empty := insertionList[..];
    assert empty == seq(|names|, _ => None);
    var i := 0;
    while i < |names|
      invariant 0 <= i <= |names| && insertionList.Length == |names|
      invariant PlaceEach(empty, names[..i]) == Some(insertionList[..])
    {
      assert names[..i + 1][..i] == names[..i];
      ok := PlaceThatList(insertionList, names[i]);
      if !ok {
        PlacedStopsFailing(empty, names, i + 1);
        return;
      }
      i := i + 1;
    }
    assert names[..i] == names;
    ok := true;
  }

  /** Once placing a prefix fails, placing all the names fails. */
  lemma {:induction false} PlacedStopsFailing(list: seq<Option<string>>, names: seq<string>, i: nat)
    requires i <= |names| && PlaceEach(list, names[..i]).None?
    ensures PlaceEach(list, names).None?
    decreases |names| - i
  {
    if i < |names| {
      assert names[..i + 1][..i] == names[..i];
      PlacedStopsFailing(list, names, i + 1);
    } else {
      assert names[..i] == names;
    }
  }

  // ---------------------------------------------------------------------
  // The naming convention `BW<n>_pure` and `BW<a>_phi_<phase>_BW<c>_phi_<phase>`

  /** The name of the pure sample of resonance `a`. */
  function PureName(a: char): string {
    "BW" + [a] + "_pure"
  }

  /** The name of the interference sample of resonances `a` and `c`, with
      phase 0 on the first and phase pi/2 on the second when `half` is set,
      phase 0 on both otherwise. */
  function PairName(a: char, c: char, half: bool): string {
    "BW" + [a] + "_phi_0" + "_" + "BW" + [c] + "_phi_" + (if half then "pi_over_2" else "0")
  }

  /** A pattern whose last character occurs in `s` only as its last
      character, and which `s` does not end with, does not occur in `s`. */
  lemma {:induction false} MissingExceptLast(s: string, p: string)
    requires |p| > 0 && |s| > 0 && p[|p| - 1] !in s[..|s| - 1]
    requires !(|p| <= |s| && s[|s| - |p|..] == p)
    ensures !Contains(s, p)
    decreases |s|
  {
    if |s| > 1 {
      assert s[1..][..|s| - 2] == s[1..|s| - 1];
      if |p| <= |s| - 1 {
        assert s[1..][|s| - 1 - |p|..] == s[|s| - |p|..];
      }
      MissingExceptLast(s[1..], p);
    }
  }

  /** What the pure test and the resonance tests find in a name. */
  predicate Mentions(s: string, pure: bool, bw1: bool, bw2: bool, bw3: bool) {
    (Contains(s, "_pure") <==> pure)
    && (Contains(s, "BW1") <==> bw1) && (Contains(s, "BW2") <==> bw2) && (Contains(s, "BW3") <==> bw3)
  }

  /** Whether a pure name contains `BW` followed by `d`. */
  lemma PureNameResonance(a: char, d: char, p: string)
    requires d in "123" && p == "BW" + [d]
    ensures Contains(PureName(a), p) <==> d == a
  {
    var s := PureName(a);
    if d == a {
      assert s == "" + p + "_pure";
      ContainsMiddle("", p, "_pure");
    } else {
      MissingCharNotContained(s, p, 2);
    }
  }

  /** A pure name passes the pure test, mentions only its resonance and
      has no phase. */
  lemma PureNameFacts(a: char)
    requires a in "123"
    ensures Mentions(PureName(a), true, a == '1', a == '2', a == '3')
    ensures !Contains(PureName(a), "_phi_pi_over_2")
  {
    var s := PureName(a);
    MissingCharNotContained(s, "_phi_pi_over_2", 2);
    assert s == "BW" + [a] + "_pure" + "";
    ContainsMiddle("BW" + [a], "_pure", "");
    PureNameResonance(a, '1', "BW1");
    PureNameResonance(a, '2', "BW2");
    PureNameResonance(a, '3', "BW3");
  }

  /** Whether a two-resonance name contains `BW` followed by `d`. */
  lemma PairNameResonance(a: char, c: char, half: bool, d: char, p: string)
    requires a in "123" && c in "123" && d in "123" && p == "BW" + [d]
    ensures Contains(PairName(a, c, half), p) <==> d == a || d == c
  {
    var s := PairName(a, c, half);
    var phase := if half then "pi_over_2" else "0";
    if d == a {
      assert s == "" + p + ("_phi_0" + "_" + "BW" + [c] + "_phi_" + phase);
      ContainsMiddle("", p, "_phi_0" + "_" + "BW" + [c] + "_phi_" + phase);
    } else if d == c {
      assert s == ("BW" + [a] + "_phi_0" + "_") + p + ("_phi_" + phase);
      ContainsMiddle("BW" + [a] + "_phi_0" + "_", p, "_phi_" + phase);
    } else if half && d == '2' {
      assert s[..|s| - 1] == "BW" + [a] + "_phi_0" + "_" + "BW" + [c] + "_phi_" + "pi_over_";
      assert s[|s| - 3] == 'r';
      MissingExceptLast(s, p);
    } else {
      MissingCharNotContained(s, p, 2);
    }
  }

  /** A two-resonance name mentions exactly its two resonances and does
      not pass the pure test. */
  lemma PairNameFacts(a: char, c: char, half: bool)
    requires a in "123" && c in "123"
    ensures Mentions(PairName(a, c, half), false, '1' in [a, c], '2' in [a, c], '3' in [a, c])
  {
    var s := PairName(a, c, half);
    MissingCharNotContained(s, "_pure", 2);
    PairNameResonance(a, c, half, '1', "BW1");
    PairNameResonance(a, c, half, '2', "BW2");
    PairNameResonance(a, c, half, '3', "BW3");
  }

  /** A name `<x>_phi_0_<y>` whose first `_phi_0` is the one after `x`
      passes the phase-0 test when `_<y>` has a `_phi_0` of its own. */
  lemma PhaseZeroOf(x: string, y: string)
    requires '_' !in x && Contains("_" + y, "_phi_0")
    ensures PhaseZero(x + "_phi_0" + ("_" + y))
  {
    var s := x + "_phi_0" + ("_" + y);
    assert s == x + "_phi_0_" + y;
    ContainsMiddle(x, "_phi_0_", y);
    FindAfter(x, "_phi_0", "_" + y);
    assert s[|x| + 6..] == "_" + y;
  }

  /** A two-resonance name with phase 0 on both passes the phase-0 test
      and not the pi/2 test. */
  lemma ZeroPairPhase(a: char, c: char)
    requires a in "123" && c in "123"
    ensures !Contains(PairName(a, c, false), "_phi_pi_over_2")
    ensures PhaseZero(PairName(a, c, false))
  {
    var s := PairName(a, c, false);
    MissingCharNotContained(s, "_phi_pi_over_2", 9);
    var y := "BW" + [c] + "_phi_" + "0";
    assert "_" + y == ("_" + "BW" + [c]) + "_phi_0" + "";
    ContainsMiddle("_" + "BW" + [c], "_phi_0", "");
    assert s == ("BW" + [a]) + "_phi_0" + ("_" + y);
    PhaseZeroOf("BW" + [a], y);
  }

  /** A two-resonance name with a pi/2 phase passes the pi/2 test. */
  lemma HalfPairPhase(a: char, c: char)
    ensures Contains(PairName(a, c, true), "_phi_pi_over_2")
  {
    var x := "BW" + [a] + "_phi_0" + "_" + "BW" + [c];
    assert PairName(a, c, true) == x + "_phi_pi_over_2" + "";
    ContainsMiddle(x, "_phi_pi_over_2", "");
  }

  /** The slot of a name, from what the tests find in it. */
  lemma SlotFromTests(s: string, pure: bool, bw1: bool, bw2: bool, bw3: bool, half: bool, zero: bool)
    requires Mentions(s, pure, bw1, bw2, bw3)
    requires Contains(s, "_phi_pi_over_2") <==> half
    requires !pure && !half ==> (PhaseZero(s) <==> zero)
    ensures SlotOf(s) ==
      if pure then Some(if bw1 then 0 else if bw2 then 1 else 2)
      else if half then Some(if bw2 && bw1 then 4 else if bw2 && bw3 then 7 else 6)
      else if zero then Some(if bw2 && bw1 then 3 else if bw2 && bw3 then 8 else 5)
      else None
  {
  }

  /** The pure samples land in the first three slots. */
  lemma PureSlots(a: char)
    requires a in "123"
    ensures SlotOf(PureName(a)) == Some(if a == '1' then 0 else if a == '2' then 1 else 2)
  {
    PureNameFacts(a);
    SlotFromTests(PureName(a), true, a == '1', a == '2', a == '3', false, false);
  }

  /** The two-resonance names land in the slot of their own argument,
      except for the second-and-third pair, whose two phases trade places:
      the phase-0 name goes to the slot of `BW23_0_05` (8) and the pi/2
      name to the slot of `BW23_0_0` (7). */
  lemma PairSlots(a: char, c: char, half: bool)
    requires (a == '1' && c == '2') || (a == '1' && c == '3') || (a == '2' && c == '3')
    ensures a == '1' && c == '2' ==> SlotOf(PairName(a, c, half)) == Some(if half then 4 else 3)
    ensures a == '1' && c == '3' ==> SlotOf(PairName(a, c, half)) == Some(if half then 6 else 5)
    ensures a == '2' && c == '3' ==> SlotOf(PairName(a, c, half)) == Some(if half then 7 else 8)
  {
    var s := PairName(a, c, half);
    PairNameFacts(a, c, half);
    if half {
      HalfPairPhase(a, c);
    } else {
      ZeroPairPhase(a, c);
    }
    SlotFromTests(s, false, a == '1', a == '2' || c == '2', c == '3', half, !half);
  }

  // ---------------------------------------------------------------------
  // Keys

  /** The key of a sample: the last `/`-component of its path (line 89). */
  function SampleKey(path: string): (r: string)
    ensures '/' !in r
  {
    AfterLast(path, '/')
  }

  /** The key of a background: the last `/`-component of its path, cut at
      its first `.` and then at its first `_` (line 101). */
  function BkgKey(path: string): (r: string)
    ensures '/' !in r && '.' !in r && '_' !in r
  {
    var name := AfterLast(path, '/');
    var stem := BeforeFirst(name, '.');
    assert forall j :: 0 <= j < |stem| ==> stem[j] == name[j];
    BeforeFirst(stem, '_')
  }

  /** A component after the last separator is the part after the last
      separator. */
  lemma AfterLastOf(dir: string, name: string, c: char)
    requires c !in name
    ensures AfterLast(dir + [c] + name, c) == name
  {
    var s := dir + [c] + name;
    var r := AfterLast(s, c);
    assert forall k :: |s| - |name| <= k < |s| ==> s[k] == name[k - (|s| - |name|)] != c;
    assert forall k :: |s| - |r| <= k < |s| ==> s[k] == r[k - (|s| - |r|)] != c;
    assert s[|s| - |name| - 1] == c;
    assert s[|s| - |name|..] == name;
  }

  /** The part before the first separator of a string that starts with a
      separator-free text followed by the separator. */
  lemma BeforeFirstOf(s: string, a: string, c: char)
    requires c !in a && |a| < |s| && s[..|a|] == a && s[|a|] == c
    ensures BeforeFirst(s, c) == a
  {
    var r := BeforeFirst(s, c);
    assert forall k :: 0 <= k < |a| ==> s[k] == a[k] != c;
    assert forall k :: 0 <= k < |r| ==> s[k] == r[k] != c;
  }

  /** A sample path's key is its file name. */
  lemma SampleKeyOf(dir: string, name: string)
    requires '/' !in name
    ensures SampleKey(dir + "/" + name) == name
  {
    AfterLastOf(dir, name, '/');
  }

  /** A background path's key is its file name's text before the first
      `_` or `.`, whichever comes first. */
  lemma BkgKeyOf(dir: string, key: string, sep: char, rest: string)
    requires sep == '_' || sep == '.'
    requires '/' !in key && '/' !in rest && '_' !in key && '.' !in key
    ensures BkgKey(dir + "/" + key + [sep] + rest) == key
  {
    var name := key + [sep] + rest;
    assert dir + "/" + key + [sep] + rest == dir + ['/'] + name;
    AfterLastOf(dir, name, '/');
    var stem := BeforeFirst(name, '.');
    assert name[..|key|] == key && name[|key|] == sep;
    if sep == '.' {
      BeforeFirstOf(name, key, '.');
      BeforeFirstNone(key, '_');
    } else {
      assert forall k :: 0 <= k <= |key| ==> name[k] != '.';
      assert stem[..|key|] == key && stem[|key|] == '_';
      BeforeFirstOf(stem, key, '_');
    }
  }

  /** A string without the separator is all before it. */
  lemma BeforeFirstNone(s: string, c: char)
    requires c !in s
    ensures BeforeFirst(s, c) == s
  {
    var r := BeforeFirst(s, c);
    assert forall k :: 0 <= k < |s| ==> s[k] != c;
  }
}
