/** `Unroll_2D_OnShell`: a two-dimensional histogram (a grid `h[x, y]` with
    `xbins` columns and `ybins` rows) is flattened row by row into a
    one-dimensional histogram of `xbins * ybins` bins. Before that, empty
    cells of a background histogram get a small floor. Afterwards the
    flattened content is split into a positive and a negative histogram,
    which are renamed and kept when their integral is positive. */
module Unroll {
  import opened Wrappers
  import opened Strings
  import opened Histograms

  /** The grid as rows: `Rows(h)[y][x] == h[x, y]`. */
  function Rows(h: array2<real>): (r: seq<seq<real>>)
    reads h
    ensures |r| == h.Length1
    ensures forall y :: 0 <= y < |r| ==> |r[y]| == h.Length0
  {
    seq(h.Length1, y requires 0 <= y < h.Length1 reads h =>
      seq(h.Length0, x requires 0 <= x < h.Length0 reads h => h[x, y]))
  }

  /** Rows laid end to end, first row first. */
  function Flatten(rows: seq<seq<real>>): seq<real>
    decreases |rows|
  {
    if |rows| == 0 then [] else Flatten(rows[..|rows| - 1]) + rows[|rows| - 1]
  }

  /** The unrolled content of the grid, in the order the source visits it:
      `y` outer, `x` inner. */
  function Cells(h: array2<real>): seq<real>
    reads h
  {
    Flatten(Rows(h))
  }

  predicate Uniform(rows: seq<seq<real>>, width: nat) {
    forall y :: 0 <= y < |rows| ==> |rows[y]| == width
  }

  /** Proof step only: `(y + 1) * w` unfolded. */
  lemma MulSucc(y: int, w: int)
    ensures (y + 1) * w == y * w + w
  {
  }

  /** Proof step only: multiplication by a natural number is monotone. */
  lemma MulMono(a: nat, b: nat, w: nat)
    requires a <= b
    ensures a * w <= b * w
  {
  }

  lemma {:induction false} FlattenLength(rows: seq<seq<real>>, width: nat)
    requires Uniform(rows, width)
    ensures |Flatten(rows)| == |rows| * width
    decreases |rows|
  {
    if |rows| > 0 {
      var n := |rows| - 1;
      FlattenLength(rows[..n], width);
      MulSucc(n, width);
    }
  }

  /** Cell `(x, y)` lands at index `y * width + x` of the unrolled
      histogram. */
  lemma {:induction false} FlattenIndex(rows: seq<seq<real>>, width: nat, x: nat, y: nat)
    requires Uniform(rows, width) && x < width && y < |rows|
    ensures |Flatten(rows)| == |rows| * width
    ensures y * width + x < |rows| * width
    ensures Flatten(rows)[y * width + x] == rows[y][x]
    decreases |rows|
  {
    var n := |rows| - 1;
    FlattenLength(rows, width);
    FlattenLength(rows[..n], width);
    MulSucc(n, width);
    if y < n {
      FlattenIndex(rows[..n], width, x, y);
      MulSucc(y, width);
      MulMono(y + 1, n, width);
    }
  }

  /** Writing cell `(x, y)` writes index `y * width + x` and nothing else. */
  lemma {:induction false} FlattenUpdate(rows: seq<seq<real>>, width: nat, x: nat, y: nat, v: real)
    requires Uniform(rows, width) && x < width && y < |rows|
    ensures y * width + x < |Flatten(rows)|
    ensures Flatten(rows[y := rows[y][x := v]]) == Flatten(rows)[y * width + x := v]
    decreases |rows|, 1
  {
    if y < |rows| - 1 {
      FlattenUpdateFront(rows, width, x, y, v);
    } else {
      FlattenUpdateLast(rows, width, x, v);
    }
  }

  /** A write in an earlier row lands in the part before the last row. */
  lemma {:induction false} FlattenUpdateFront(rows: seq<seq<real>>, width: nat, x: nat, y: nat, v: real)
    requires Uniform(rows, width) && x < width && y < |rows| - 1
    ensures y * width + x < |Flatten(rows)|
    ensures Flatten(rows[y := rows[y][x := v]]) == Flatten(rows)[y * width + x := v]
    decreases |rows|, 0
  {
    var n := |rows| - 1;
    var rows' := rows[y := rows[y][x := v]];
    assert Flatten(rows) == Flatten(rows[..n]) + rows[n];
    assert Flatten(rows') == Flatten(rows'[..n]) + rows'[n];
    assert rows'[..n] == rows[..n][y := rows[..n][y][x := v]];
    FlattenUpdate(rows[..n], width, x, y, v);
    UpdateLeft(Flatten(rows[..n]), rows[n], y * width + x, v);
  }

  /** A write in the last row lands after all the earlier rows. */
  lemma FlattenUpdateLast(rows: seq<seq<real>>, width: nat, x: nat, v: real)
    requires Uniform(rows, width) && x < width && |rows| > 0
    ensures (|rows| - 1) * width + x < |Flatten(rows)|
    ensures Flatten(rows[|rows| - 1 := rows[|rows| - 1][x := v]]) == Flatten(rows)[(|rows| - 1) * width + x := v]
  {
    var n := |rows| - 1;
    var rows' := rows[n := rows[n][x := v]];
    var front := Flatten(rows[..n]);
    FlattenLength(rows[..n], width);
    assert rows'[..n] == rows[..n];
    UpdateRight(front, rows[n], x, v);
  }

  lemma UpdateLeft(a: seq<real>, b: seq<real>, k: nat, v: real)
    requires k < |a|
    ensures (a + b)[k := v] == a[k := v] + b
  {
  }

  lemma UpdateRight(a: seq<real>, b: seq<real>, x: nat, v: real)
    requires x < |b|
    ensures (a + b)[|a| + x := v] == a + b[x := v]
  {
  }

  /** Writing `h[x, y]` changes exactly that entry of the rows. */
  lemma RowsAfterWrite(h: array2<real>, before: seq<seq<real>>, x: nat, y: nat, v: real)
    requires x < h.Length0 && y < h.Length1 && h[x, y] == v
    requires |before| == h.Length1 && Uniform(before, h.Length0)
    requires forall x', y' :: 0 <= x' < h.Length0 && 0 <= y' < h.Length1 && (x' != x || y' != y) ==> h[x', y'] == before[y'][x']
    ensures Rows(h) == before[y := before[y][x := v]]
  {
    var after := before[y := before[y][x := v]];
    forall y' | 0 <= y' < h.Length1 ensures Rows(h)[y'] == after[y'] {
      forall x' | 0 <= x' < h.Length0 ensures Rows(h)[y'][x'] == after[y'][x'] {
      }
    }
  }

  /** The fill step for index `j`: an empty cell of a background histogram
      gets a tenth of the current total spread over all cells; the total
      includes the floors already placed. */
  function FillStep(cur: seq<real>, j: nat, fill: bool): seq<real>
    requires j < |cur|
  {
    if cur[j] == 0.0 && fill then cur[j := 0.1 * Sum(cur) * 1.0 / (|cur| as real)] else cur
  }

  /** The grid content after the scan pass has visited the first `k` cells. */
  function FillPrefix(s: seq<real>, k: nat, fill: bool): (r: seq<real>)
    requires k <= |s|
    ensures |r| == |s|
    decreases k
  {
    if k == 0 then s else FillStep(FillPrefix(s, k - 1, fill), k - 1, fill)
  }

  /** The grid content after the whole scan pass. */
  function FillZeros(s: seq<real>, fill: bool): (r: seq<real>)
    ensures |r| == |s|
  {
    FillPrefix(s, |s|, fill)
  }

  /** Cells not yet visited still hold their original content. */
  lemma {:induction false} FillPrefixAhead(s: seq<real>, k: nat, fill: bool, j: nat)
    requires k <= j < |s|
    ensures FillPrefix(s, k, fill)[j] == s[j]
    decreases k
  {
    if k > 0 {
      FillPrefixAhead(s, k - 1, fill, j);
    }
  }

  /** One visit of the scan pass: cell `(x, y)`, the `k`-th in unroll
      order, is read and, when empty in a background histogram, filled. */
  method ScanCell(h: array2<real>, name: string, x: nat, y: nat, ghost k: nat, ghost s0: seq<real>)
      returns (negative: bool)
    requires x < h.Length0 && y < h.Length1 && k == y * h.Length0 + x
    requires |s0| == h.Length1 * h.Length0 && k < |s0|
    requires Cells(h) == FillPrefix(s0, k, Contains(name, "bkg"))
    modifies h
    ensures Cells(h) == FillPrefix(s0, k + 1, Contains(name, "bkg"))
    ensures negative <==> s0[k] < 0.0
  {
    ghost var fill := Contains(name, "bkg");
    ghost var before := Rows(h);
    FlattenIndex(before, h.Length0, x, y);
    FillPrefixAhead(s0, k, fill, k);
    var cont := h[x, y];
    if cont == 0.0 {
      if Contains(name, "bkg") {
        var intt := Sum(Cells(h));
        var nb := h.Length1 * h.Length0;
        var contt := 0.1 * intt * 1.0 / (nb as real);
        FlattenUpdate(before, h.Length0, x, y, contt);
        h[x, y] := contt;
        RowsAfterWrite(h, before, x, y, contt);
      }
    }
    negative := cont < 0.0;
  }

  /** A grid whose name lacks `bkg` is left as it is. */
  lemma {:induction false} FillPrefixNoFill(s: seq<real>, k: nat)
    requires k <= |s|
    ensures FillPrefix(s, k, false) == s
    decreases k
  {
    if k > 0 {
      FillPrefixNoFill(s, k - 1);
    }
  }

  /** Only empty cells change: a nonzero cell keeps its content. */
  lemma {:induction false} FillPrefixKeepsNonzero(s: seq<real>, k: nat, fill: bool, j: nat)
    requires k <= |s| && j < |s| && s[j] != 0.0
    ensures FillPrefix(s, k, fill)[j] == s[j]
    decreases k
  {
    if k > 0 {
      FillPrefixKeepsNonzero(s, k - 1, fill, j);
      if j == k - 1 {
        FillPrefixAhead(s, k - 1, fill, j);
      }
    }
  }

  /** The floor a fill step places has the sign of the current total. */
  lemma FloorSign(total: real, n: real)
    requires n > 0.0
    ensures 0.1 * total * 1.0 / n > 0.0 <==> total > 0.0
    ensures 0.1 * total * 1.0 / n < 0.0 <==> total < 0.0
  {
    if total > 0.0 {
      assert 0.1 * total * 1.0 > 0.0;
    } else if total < 0.0 {
      assert 0.1 * total * 1.0 < 0.0;
    }
  }

  /** A negative total needs a negative cell. */
  lemma NegativeSumHasNegative(s: seq<real>)
    requires Sum(s) < 0.0
    ensures AnyNegative(s)
  {
    if !AnyNegative(s) {
      NonNegativeSumPositive(s);
    }
  }

  /** The scan pass creates no negative cell that was not there: a floor is
      negative only when the total already is, which needs a negative cell. */
  lemma {:induction false} FillPrefixNegative(s: seq<real>, k: nat, fill: bool)
    requires k <= |s|
    ensures AnyNegative(FillPrefix(s, k, fill)) <==> AnyNegative(s)
    decreases k
  {
    if k > 0 {
      var j := k - 1;
      var cur := FillPrefix(s, j, fill);
      FillPrefixNegative(s, j, fill);
      if cur[j] == 0.0 && fill {
        var v := 0.1 * Sum(cur) * 1.0 / (|cur| as real);
        var next := cur[j := v];
        FloorSign(Sum(cur), |cur| as real);
        if AnyNegative(cur) {
          var i :| 0 <= i < |cur| && cur[i] < 0.0;
          assert next[i] < 0.0;
        }
        if AnyNegative(next) {
          var i :| 0 <= i < |next| && next[i] < 0.0;
          if i == j {
            NegativeSumHasNegative(cur);
          } else {
            assert cur[i] < 0.0;
          }
        }
      }
    }
  }

  /** For a background grid with no negative cell and a positive total,
      every cell is positive after the scan pass. */
  lemma {:induction false} FillPrefixPositive(s: seq<real>, k: nat)
    requires k <= |s|
    requires forall j :: 0 <= j < |s| ==> s[j] >= 0.0
    requires Sum(s) > 0.0
    ensures forall j :: 0 <= j < k ==> FillPrefix(s, k, true)[j] > 0.0
    ensures forall j :: k <= j < |s| ==> FillPrefix(s, k, true)[j] == s[j]
    ensures Sum(FillPrefix(s, k, true)) >= Sum(s)
    decreases k
  {
    if k > 0 {
      var j := k - 1;
      var cur := FillPrefix(s, j, true);
      FillPrefixPositive(s, j);
      if cur[j] == 0.0 {
        var v := 0.1 * Sum(cur) * 1.0 / (|cur| as real);
        FloorSign(Sum(cur), |cur| as real);
        SumUpdate(cur, j, v);
      }
    }
  }

  /** `FillZeros` in the three forms the scan pass promises. */
  lemma FillZerosFacts(s: seq<real>, fill: bool)
    ensures !fill ==> FillZeros(s, fill) == s
    ensures forall j :: 0 <= j < |s| && s[j] != 0.0 ==> FillZeros(s, fill)[j] == s[j]
    ensures AnyNegative(FillZeros(s, fill)) <==> AnyNegative(s)
  {
    if !fill {
      FillPrefixNoFill(s, |s|);
    }
    forall j | 0 <= j < |s| && s[j] != 0.0 ensures FillZeros(s, fill)[j] == s[j] {
      FillPrefixKeepsNonzero(s, |s|, fill, j);
    }
    FillPrefixNegative(s, |s|, fill);
  }

  /** A background grid with no negative cell and a positive total has no
      empty cell left after the scan pass. */
  lemma FillZerosPositive(s: seq<real>)
    requires forall j :: 0 <= j < |s| ==> s[j] >= 0.0
    requires Sum(s) > 0.0
    ensures forall j :: 0 <= j < |s| ==> FillZeros(s, true)[j] > 0.0
  {
    FillPrefixPositive(s, |s|);
  }

  lemma SumOfFour(s: seq<real>)
    requires |s| == 4
    ensures Sum(s) == s[0] + s[1] + s[2] + s[3]
  {
    assert s[..3][..2] == s[..2];
    assert s[..2][..1] == s[..1];
    assert s[..1][..0] == [];
    assert Sum(s[..1]) == s[0];
    assert Sum(s[..2]) == s[0] + s[1];
    assert Sum(s[..3]) == s[0] + s[1] + s[2];
  }

  /** The floors compound: in `[5, 0, 0, -3]` the first empty cell gets
      `0.1 * 2 / 4` and the second `0.1 * 2.05 / 4`. */
  lemma FillZerosExample(s: seq<real>)
    requires s == [5.0, 0.0, 0.0, -3.0]
    ensures FillZeros(s, true) == [5.0, 0.05, 0.05125, -3.0]
  {
    SumOfFour(s);
    var s1 := FillPrefix(s, 1, true);
    assert s1 == s;
    var s2 := FillPrefix(s, 2, true);
    assert s2 == [5.0, 0.05, 0.0, -3.0];
    SumOfFour(s2);
    var s3 := FillPrefix(s, 3, true);
    assert s3 == [5.0, 0.05, 0.05125, -3.0];
    assert FillPrefix(s, 4, true) == s3;
  }

  /** The scan pass over the grid: fills empty cells when the histogram's
      name contains `bkg`, and reports whether some cell was negative before
      the pass. */
  method FillScan(h: array2<real>, name: string) returns (hasNegative: bool)
    modifies h
    ensures Cells(h) == FillZeros(old(Cells(h)), Contains(name, "bkg"))
    ensures hasNegative <==> exists j :: 0 <= j < |old(Cells(h))| && old(Cells(h))[j] < 0.0
  {
    ghost var s0 := Cells(h);
    ghost var fill := Contains(name, "bkg");
    var xbins, ybins := h.Length0, h.Length1;
    FlattenLength(Rows(h), xbins);
    hasNegative := false;
    ghost var k := 0;
    var y := 0;
    while y < ybins
      invariant 0 <= y <= ybins && k == y * xbins && k <= |s0|
      invariant Cells(h) == FillPrefix(s0, k, fill)
      invariant hasNegative <==> exists j :: 0 <= j < k && s0[j] < 0.0
    {
      var x := 0;
      MulSucc(y, xbins);
      MulMono(y + 1, ybins, xbins);
      while x < xbins
        invariant 0 <= x <= xbins && k == y * xbins + x && k <= |s0|
        invariant Cells(h) == FillPrefix(s0, k, fill)
        invariant hasNegative <==> exists j :: 0 <= j < k && s0[j] < 0.0
      {
        var negative := ScanCell(h, name, x, y, k, s0);
        if negative {
          hasNegative := true;
        }
        x := x + 1;
        k := k + 1;
      }
      y := y + 1;
    }
  }

  /** The unroll pass: the `k`-th visited cell goes to bin `k` of the
      positive histogram when it is not negative, and its magnitude to bin
      `k` of the negative histogram otherwise. Both start empty and every
      bin is filled once. */
  method UnrollPass(h: array2<real>) returns (pos: array<real>, neg: array<real>)
    ensures fresh(pos) && fresh(neg)
    ensures pos[..] == PosPart(Cells(h)) && neg[..] == NegPart(Cells(h))
  {
    var xbins, ybins := h.Length0, h.Length1;
    ghost var c := Cells(h);
    FlattenLength(Rows(h), xbins);
    pos := new real[ybins * xbins](_ => 0.0);
    neg := new real[ybins * xbins](_ => 0.0);
    var indk := 0;
    var y := 0;
    while y < ybins
      invariant 0 <= y <= ybins && indk == y * xbins && indk <= |c|
      invariant pos.Length == neg.Length == |c|
      invariant forall j :: 0 <= j < indk ==> pos[j] == PosPart(c)[j] && neg[j] == NegPart(c)[j]
      invariant forall j :: indk <= j < |c| ==> pos[j] == 0.0 && neg[j] == 0.0
    {
      var x := 0;
      MulSucc(y, xbins);
      MulMono(y + 1, ybins, xbins);
      while x < xbins
        invariant 0 <= x <= xbins && indk == y * xbins + x && indk <= |c|
        invariant forall j :: 0 <= j < indk ==> pos[j] == PosPart(c)[j] && neg[j] == NegPart(c)[j]
        invariant forall j :: indk <= j < |c| ==> pos[j] == 0.0 && neg[j] == 0.0
      {
        UnrollCell(h, pos, neg, x, y, indk);
        x := x + 1;
        indk := indk + 1;
      }
      y := y + 1;
    }
  }

  /** One visit of the unroll pass: cell `(x, y)`, the `k`-th in unroll
      order, is added to bin `k` of the positive histogram when it is not
      negative, and its magnitude to bin `k` of the negative one otherwise. */
  method UnrollCell(h: array2<real>, pos: array<real>, neg: array<real>, x: nat, y: nat, k: nat)
    requires x < h.Length0 && y < h.Length1 && k == y * h.Length0 + x
    requires pos != neg && pos.Length == neg.Length == |Cells(h)| && k < pos.Length
    requires pos[k] == 0.0 && neg[k] == 0.0
    modifies pos, neg
    ensures pos[..] == old(pos[..])[k := PosPart(Cells(h))[k]]
    ensures neg[..] == old(neg[..])[k := NegPart(Cells(h))[k]]
  {
    FlattenIndex(Rows(h), h.Length0, x, y);
    var cont := h[x, y];
    if cont < 0.0 {
      neg[k] := neg[k] + -1.0 * cont;
    } else {
      pos[k] := pos[k] + cont;
    }
  }

  /** The name carries one of the markers that keep the names of a
      histogram with negative content. */
  predicate HasMarker(name: string) {
    Contains(name, "bkg") || Contains(name, "Data") || Contains(name, "0PH")
    || Contains(name, "0PM") || Contains(name, "L1") || Contains(name, "0M")
  }

  /** Tags a name with `word`: as its third `_`-token when the name
      contains `up` or `dn` (appended when there are fewer than two
      tokens), otherwise as a `_word` suffix. */
  function Tagged(name: string, word: string): string {
    if Contains(name, "up") || Contains(name, "dn") then Join(InsertAt(Split(name, '_'), 2, word), '_')
    else name + "_" + word
  }

  /** The three-way renaming: a marked name with negative content is kept;
      a name with negative content or without a marker is tagged
      `positive`/`negative`; a marked name without negative content has
      its `0Xff_` replaced by `0Mff_`. */
  function Renamed(name: string, hasNegative: bool): (string, string) {
    if hasNegative && HasMarker(name) then (name, name)
    else if hasNegative || !HasMarker(name) then (Tagged(name, "positive"), Tagged(name, "negative"))
    else (ReplaceAll(name, "0Xff_", "0Mff_"), ReplaceAll(name, "0Xff_", "0Mff_"))
  }

  /** The names given to the positive and the negative histogram: the
      renaming, overridden by `data_obs` for both when the negative name
      mentions `data` or `Data`. Only the tagging branch gives the two
      histograms different names. */
  function UnrolledNames(name: string, hasNegative: bool): (r: (string, string))
    ensures r.0 == r.1 || r == (Tagged(name, "positive"), Tagged(name, "negative"))
  {
    var (tp, tn) := Renamed(name, hasNegative);
    if Contains(tn, "data") || Contains(tn, "Data") then ("data_obs", "data_obs") else (tp, tn)
  }

  /** The `data_obs` override: when the renamed negative histogram mentions
      `data` or `Data`, both histograms are called `data_obs`; otherwise
      the renaming stands. */
  lemma DataOverride(name: string, hasNegative: bool)
    ensures var tn := Renamed(name, hasNegative).1;
      Contains(tn, "data") || Contains(tn, "Data") ==> UnrolledNames(name, hasNegative) == ("data_obs", "data_obs")
    ensures var tn := Renamed(name, hasNegative).1;
      !(Contains(tn, "data") || Contains(tn, "Data")) ==> UnrolledNames(name, hasNegative) == Renamed(name, hasNegative)
  {
  }

  /** A name starting with `data` and otherwise free of marker letters is
      written as `data_obs`, with or without negative content. */
  lemma DataTagged(r: string, hasNegative: bool)
    requires 'u' !in r && 'n' !in r && UnmarkedLetters(r)
    ensures UnrolledNames("data" + r, hasNegative) == ("data_obs", "data_obs")
  {
    var name := "data" + r;
    assert forall i :: 0 <= i < |name| ==> name[i] != 'k' && name[i] != 'D' && name[i] != '0' && name[i] != 'L' && name[i] != 'u' by {
      forall i | 0 <= i < |name| ensures name[i] != 'k' && name[i] != 'D' && name[i] != '0' && name[i] != 'L' && name[i] != 'u' {
        if i >= 4 {
          assert name[i] == r[i - 4];
        }
      }
    }
    UnmarkedByLetters(name);
    MissingCharNotContained(name, "up", 0);
    assert 'n' !in name by {
      forall i | 0 <= i < |name| ensures name[i] != 'n' {
        if i >= 4 {
          assert name[i] == r[i - 4];
        }
      }
    }
    MissingCharNotContained(name, "dn", 1);
    var tn := name + "_" + "negative";
    assert tn == "" + "data" + (r + "_" + "negative");
    ContainsMiddle("", "data", r + "_" + "negative");
  }

  /** A marked name without negative content whose renamed form does not
      mention data is written with every `0Xff_` replaced by `0Mff_`, and
      no `0Xff_` is left in it. */
  lemma ReplacedNames(name: string)
    requires HasMarker(name)
    requires var n' := ReplaceAll(name, "0Xff_", "0Mff_");
      !Contains(n', "data") && !Contains(n', "Data")
    ensures var n' := ReplaceAll(name, "0Xff_", "0Mff_");
      UnrolledNames(name, false) == (n', n') && !Contains(n', "0Xff_")
  {
    ReplaceAllRemoves(name, "0Xff_", "0Mff_");
  }

  /** `<a>0Xff_<b>` with a marker in `b` and no negative content becomes
      `<a>0Mff_<b>` for both histograms. */
  lemma ReplacedExample(a: string, b: string)
    requires '0' !in a && 'X' !in b && HasMarker(b)
    requires 'd' !in a && 'D' !in a && 'd' !in b && 'D' !in b
    ensures UnrolledNames(a + "0Xff_" + b, false) == (a + "0Mff_" + b, a + "0Mff_" + b)
  {
    var name := a + "0Xff_" + b;
    assert name == a + ("0Xff_" + b);
    ReplaceAllFreePrefix(a, "0Xff_" + b, "0Xff_", "0Mff_");
    ReplaceAllFront("0Xff_", b, "0Mff_");
    MissingCharNotContained(b, "0Xff_", 1);
    ReplaceAbsent(b, "0Xff_", "0Mff_");
    var n' := a + "0Mff_" + b;
    assert ReplaceAll(name, "0Xff_", "0Mff_") == n';
    MarkerAppendLeft(a + "0Xff_", b);
    assert 'd' !in n' && 'D' !in n';
    MissingCharNotContained(n', "data", 0);
    MissingCharNotContained(n', "Data", 0);
    ReplacedNames(name);
  }

  /** `ggH_0Xff_0PH`, a marked name without negative content, is written
      as `ggH_0Mff_0PH` for both histograms. */
  lemma ReplacedExampleName()
    ensures UnrolledNames("ggH_0Xff_0PH", false) == ("ggH_0Mff_0PH", "ggH_0Mff_0PH")
  {
    var a, b := "ggH_", "0PH";
    ContainsAt(b, "0PH", 0);
    ReplacedExample(a, b);
    assert a + "0Xff_" + b == "ggH_0Xff_0PH";
    assert a + "0Mff_" + b == "ggH_0Mff_0PH";
  }

  /** A marker in the tail of a name is a marker of the name. */
  lemma MarkerAppendLeft(x: string, b: string)
    requires HasMarker(b)
    ensures HasMarker(x + b)
  {
    if Contains(b, "bkg") {
      ContainsAppendLeft(x, b, "bkg");
    } else if Contains(b, "Data") {
      ContainsAppendLeft(x, b, "Data");
    } else if Contains(b, "0PH") {
      ContainsAppendLeft(x, b, "0PH");
    } else if Contains(b, "0PM") {
      ContainsAppendLeft(x, b, "0PM");
    } else if Contains(b, "L1") {
      ContainsAppendLeft(x, b, "L1");
    } else {
      ContainsAppendLeft(x, b, "0M");
    }
  }

  /** The write decision: the positive histogram, then the negative one,
      each only when its integral is positive. */
  function WriteDecision(names: (string, string), filled: seq<real>): seq<Written> {
    (if Sum(PosPart(filled)) > 0.0 then [Written(names.0, PosPart(filled))] else [])
    + (if Sum(NegPart(filled)) > 0.0 then [Written(names.1, NegPart(filled))] else [])
  }

  /** What unrolling one grid named `name` with content `cells` writes. */
  function UnrolledRecords(name: string, cells: seq<real>): seq<Written> {
    WriteDecision(UnrolledNames(name, AnyNegative(cells)), FillZeros(cells, Contains(name, "bkg")))
  }

  /** Unrolls one grid named `name`: scan pass, unroll pass, renaming and
      the write decision. */
  method UnrollHistogram(h: array2<real>, name: string) returns (written: seq<Written>)
    modifies h
    ensures Cells(h) == FillZeros(old(Cells(h)), Contains(name, "bkg"))
    ensures written == UnrolledRecords(name, old(Cells(h)))
  {
    var hasNegative := FillScan(h, name);
    var tempPos, tempNeg := UnrollPass(h);
    var names := UnrolledNames(name, hasNegative);
    written := [];
    if Sum(tempPos[..]) > 0.0 {
      written := written + [Written(names.0, tempPos[..])];
    }
    if Sum(tempNeg[..]) > 0.0 {
      written := written + [Written(names.1, tempNeg[..])];
    }
    assert written == WriteDecision(names, Cells(h));
  }

  /** The negative histogram is written exactly when some cell of the grid
      was negative before the scan pass, and the positive one exactly when
      some cell is positive after it. */
  lemma UnrolledRecordsWritten(name: string, cells: seq<real>)
    ensures |UnrolledRecords(name, cells)|
      == (if AnyPositive(FillZeros(cells, Contains(name, "bkg"))) then 1 else 0)
       + (if AnyNegative(cells) then 1 else 0)
  {
    var filled := FillZeros(cells, Contains(name, "bkg"));
    var names := UnrolledNames(name, AnyNegative(cells));
    assert UnrolledRecords(name, cells) == WriteDecision(names, filled);
    var p: seq<Written> := if Sum(PosPart(filled)) > 0.0 then [Written(names.0, PosPart(filled))] else [];
    var n: seq<Written> := if Sum(NegPart(filled)) > 0.0 then [Written(names.1, NegPart(filled))] else [];
    assert WriteDecision(names, filled) == p + n;
    PosPartArea(filled);
    NegPartArea(filled);
    FillZerosFacts(cells, Contains(name, "bkg"));
    assert Sum(NegPart(filled)) > 0.0 <==> AnyNegative(cells);
    assert |p| == if Sum(PosPart(filled)) > 0.0 then 1 else 0;
    assert |n| == if AnyNegative(cells) then 1 else 0;
    assert AnyPositive(filled) <==> Sum(PosPart(filled)) > 0.0;
  }

  /** A name with a marker and without `0Xff_`, `data` or `Data` is kept
      for both outputs, whatever the content. */
  lemma MarkedNamesKept(name: string, hasNegative: bool)
    requires HasMarker(name)
    requires !Contains(name, "0Xff_") && !Contains(name, "data") && !Contains(name, "Data")
    ensures UnrolledNames(name, hasNegative) == (name, name)
  {
    ReplaceAbsent(name, "0Xff_", "0Mff_");
  }

  /** The three unrolled keys keep their names whether or not the grid has
      negative content. */
  lemma UnrolledKeysKeepNames(key: string, hasNegative: bool)
    requires key in UnrolledKeys
    ensures UnrolledNames(key, hasNegative) == (key, key)
  {
    if key == "ggH_0PM" {
      MarkedKeyKept(key, "0PM", 4, hasNegative);
    } else if key == "ggH_0M" {
      MarkedKeyKept(key, "0M", 4, hasNegative);
    } else {
      MarkedKeyKept(key, "bkg", 0, hasNegative);
    }
  }

  /** A name with one of the markers at a known place, and without the
      letters that start `0Xff_`'s `X`, `data` and `Data`, is kept. */
  lemma MarkedKeyKept(key: string, marker: string, i: nat, hasNegative: bool)
    requires i + |marker| <= |key| && key[i..i + |marker|] == marker
    requires marker == "0PM" || marker == "0M" || marker == "bkg"
    requires 'X' !in key && 'd' !in key && 'D' !in key
    ensures UnrolledNames(key, hasNegative) == (key, key)
  {
    ContainsAt(key, marker, i);
    MissingCharNotContained(key, "0Xff_", 1);
    MissingCharNotContained(key, "data", 0);
    MissingCharNotContained(key, "Data", 0);
    MarkedNamesKept(key, hasNegative);
  }

  /** A name without a marker is tagged `positive`/`negative`, with or
      without negative content, unless its negative name mentions data. */
  lemma UnmarkedNamesTagged(name: string, hasNegative: bool)
    requires !HasMarker(name)
    requires !Contains(Tagged(name, "negative"), "data") && !Contains(Tagged(name, "negative"), "Data")
    ensures UnrolledNames(name, hasNegative) == (Tagged(name, "positive"), Tagged(name, "negative"))
  {
  }

  /** A three-token name that mentions `up` gets the word as its third
      token, ahead of the last one. */
  lemma TaggedThird(name: string, a: string, b: string, d: string, word: string)
    requires name == a + "_" + b + "_" + d
    requires '_' !in a && '_' !in b && '_' !in d
    requires Contains(name, "up")
    ensures Tagged(name, word) == a + "_" + b + "_" + word + "_" + d
  {
    SplitThree(name, a, b, d, '_');
    var ts := [a, b, word, d];
    assert InsertAt([a, b, d], 2, word) == ts;
    assert Join(ts[2..], '_') == word + "_" + d by {
      assert ts[2..][1..] == [d];
    }
    assert Join(ts[1..], '_') == b + "_" + (word + "_" + d) by {
      assert ts[1..][1..] == ts[2..];
    }
    assert Join(ts, '_') == a + "_" + (b + "_" + (word + "_" + d));
  }

  /** A three-token name `<a>_up_<d>` without markers gets the words
      `positive` and `negative` as its third token (for instance
      `signal_up_variation` becomes `signal_up_positive_variation` and
      `signal_up_negative_variation`), with or without negative content. */
  lemma TaggedUpName(a: string, d: string, hasNegative: bool)
    requires '_' !in a && '_' !in d
    requires UnmarkedLetters(a) && UnmarkedLetters(d)
    ensures UnrolledNames(a + "_" + "up" + "_" + d, hasNegative)
      == (a + "_" + "up" + "_" + "positive" + "_" + d, a + "_" + "up" + "_" + "negative" + "_" + d)
  {
    var name := a + "_" + "up" + "_" + d;
    UnmarkedByLetters(name);
    TaggedUp(a, d, "positive");
    TaggedUp(a, d, "negative");
    var neg := Tagged(name, "negative");
    MissingCharNotContained(neg, "data", 0);
    MissingCharNotContained(neg, "Data", 0);
    UnmarkedNamesTagged(name, hasNegative);
  }

  /** A word tagged onto `<a>_up_<d>` becomes its third token. */
  lemma TaggedUp(a: string, d: string, word: string)
    requires '_' !in a && '_' !in d
    ensures Tagged(a + "_" + "up" + "_" + d, word) == a + "_" + "up" + "_" + word + "_" + d
  {
    var name := a + "_" + "up" + "_" + d;
    assert name == (a + "_") + "up" + ("_" + d);
    ContainsMiddle(a + "_", "up", "_" + d);
    TaggedThird(name, a, "up", d, word);
  }

  /** None of the letters that start a marker or `data`/`Data`. */
  predicate UnmarkedLetters(s: string) {
    'k' !in s && 'D' !in s && '0' !in s && 'L' !in s && 'd' !in s
  }

  /** A name without the letters `k`, `D`, `0` and `L` has no marker. */
  lemma UnmarkedByLetters(name: string)
    requires 'k' !in name && 'D' !in name && '0' !in name && 'L' !in name
    ensures !HasMarker(name)
  {
    MissingCharNotContained(name, "bkg", 1);
    MissingCharNotContained(name, "Data", 0);
    MissingCharNotContained(name, "0PH", 0);
    MissingCharNotContained(name, "0PM", 0);
    MissingCharNotContained(name, "L1", 0);
    MissingCharNotContained(name, "0M", 0);
  }

  /** Tagging with two different separator-free words gives different
      names. */
  lemma TaggedDistinct(name: string, w: string, w': string)
    requires w != w' && '_' !in w && '_' !in w'
    ensures Tagged(name, w) != Tagged(name, w')
  {
    if Contains(name, "up") || Contains(name, "dn") {
      var ts := Split(name, '_');
      SplitTokensAvoidSeparator(name, '_');
      var a, b := InsertAt(ts, 2, w), InsertAt(ts, 2, w');
      var i := if 2 <= |ts| then 2 else |ts|;
      assert a[i] == w && b[i] == w';
      forall t, j | 0 <= t < |a| && 0 <= j < |a[t]| ensures a[t][j] != '_' {
        if 2 <= |ts| {
          assert t < 2 || t == 2 || a[t] == ts[t - 1];
        }
      }
      forall t, j | 0 <= t < |b| && 0 <= j < |b[t]| ensures b[t][j] != '_' {
        if 2 <= |ts| {
          assert t < 2 || t == 2 || b[t] == ts[t - 1];
        }
      }
      SplitJoin(a, '_');
      SplitJoin(b, '_');
    } else {
      var p, q := name + "_" + w, name + "_" + w';
      if |w| == |w'| {
        var j :| 0 <= j < |w| && w[j] != w'[j];
        assert p[|name| + 1 + j] == w[j] && q[|name| + 1 + j] == w'[j];
      } else {
        assert |p| != |q|;
      }
    }
  }

  /** When a histogram is renamed with the `positive`/`negative` tags and
      not overridden as data, its two outputs get different names. */
  lemma RetaggedNamesDiffer(name: string, hasNegative: bool)
    requires !(hasNegative && HasMarker(name)) && (hasNegative || !HasMarker(name))
    ensures var names := UnrolledNames(name, hasNegative);
      names == ("data_obs", "data_obs") || names.0 != names.1
  {
    TaggedDistinct(name, "positive", "negative");
  }

  /** The keys the source unrolls, in order. */
  const UnrolledKeys: seq<string> := ["ggH_0PM", "ggH_0M", "bkg_ggzz"]

  /** The output file's path, the histograms written to it, and whether
      every key was found (`complete == false` is the source's error after
      the file was created). */
  datatype Output = Output(path: string, written: seq<Written>, complete: bool)

  /** The output path: the directory with a trailing `/`, the file name up
      to its first `.`, and `_unrolled.root`. An empty directory is the
      source's index error. */
  function OutputPath(directory: string, fname: string): (r: Option<string>)
    ensures r.None? <==> |directory| == 0
  {
    if |directory| == 0 then None
    else
      var dir := if directory[|directory| - 1] != '/' then directory + "/" else directory;
      Some(dir + BeforeFirst(fname, '.') + "_unrolled.root")
  }

  /** The histograms written for the given keys, in order, from the grid
      contents before unrolling. */
  function RecordsFor(keys: seq<string>, contents: map<string, seq<real>>): seq<Written>
    requires forall i :: 0 <= i < |keys| ==> keys[i] in contents
    decreases |keys|
  {
    if |keys| == 0 then []
    else RecordsFor(keys[..|keys| - 1], contents) + UnrolledRecords(keys[|keys| - 1], contents[keys[|keys| - 1]])
  }

  /** One more key appends that key's histograms. */
  lemma RecordsForStep(keys: seq<string>, n: nat, contents: map<string, seq<real>>)
    requires n < |keys| && forall i :: 0 <= i <= n ==> keys[i] in contents
    ensures RecordsFor(keys[..n + 1], contents)
      == RecordsFor(keys[..n], contents) + UnrolledRecords(keys[n], contents[keys[n]])
  {
    assert keys[..n + 1][..n] == keys[..n];
  }

  /** Every key is present in the input file. */
  predicate KeysPresent(keys: seq<string>, histfile: map<string, array2<real>>) {
    forall i :: 0 <= i < |keys| ==> keys[i] in histfile
  }

  /** How many keys, from the front, are present in the input file: the
      loop writes the histograms of these before it stops. */
  function PresentPrefix(keys: seq<string>, histfile: map<string, array2<real>>): (n: nat)
    ensures n <= |keys|
    ensures forall i :: 0 <= i < n ==> keys[i] in histfile
    ensures n < |keys| ==> keys[n] !in histfile
    decreases |keys|
  {
    if |keys| == 0 || keys[0] !in histfile then 0 else 1 + PresentPrefix(keys[1..], histfile)
  }

  /** The present prefix is the one length whose keys are all present and
      which stops at a missing key or at the end. */
  lemma PresentPrefixIs(keys: seq<string>, histfile: map<string, array2<real>>, n: nat)
    requires n <= |keys| && forall i :: 0 <= i < n ==> keys[i] in histfile
    requires n < |keys| ==> keys[n] !in histfile
    ensures PresentPrefix(keys, histfile) == n
  {
  }

  /** When `ggH_0M` is missing, the file keeps exactly the histograms of
      `ggH_0PM`, which was unrolled before the error. */
  lemma MissingSecondKey(histfile: map<string, array2<real>>, contents: map<string, seq<real>>)
    requires "ggH_0PM" in histfile && "ggH_0M" !in histfile && "ggH_0PM" in contents
    ensures PresentPrefix(UnrolledKeys, histfile) == 1
    ensures RecordsFor(UnrolledKeys[..PresentPrefix(UnrolledKeys, histfile)], contents)
      == UnrolledRecords("ggH_0PM", contents["ggH_0PM"])
  {
    assert UnrolledKeys[1..][0] == "ggH_0M";
    assert UnrolledKeys[..1] == ["ggH_0PM"];
    assert RecordsFor(UnrolledKeys[..1], contents) == RecordsFor([], contents) + UnrolledRecords("ggH_0PM", contents["ggH_0PM"]);
  }

  /** Different keys name different grids. */
  predicate DistinctGrids(keys: seq<string>, histfile: map<string, array2<real>>) {
    forall k, k' :: k in keys && k' in keys && k in histfile && k' in histfile && k != k'
      ==> histfile[k] != histfile[k']
  }

  /** The grids the keys name. */
  function Grids(keys: seq<string>, histfile: map<string, array2<real>>): set<array2<real>> {
    set k | k in keys && k in histfile :: histfile[k]
  }

  /** The contents of the grids the keys name. */
  function GridContents(keys: seq<string>, histfile: map<string, array2<real>>): (r: map<string, seq<real>>)
    reads Grids(keys, histfile)
    ensures forall k :: k in keys && k in histfile ==> k in r
  {
    map k | k in keys && k in histfile :: Cells(histfile[k])
  }

  /** The loop over the keys: each grid is unrolled in turn and its
      histograms are appended; a missing key stops the loop (the source's
      error), reported as `ok == false`, with the histograms of the keys
      before it already written. */
  method UnrollKeys(keys: seq<string>, histfile: map<string, array2<real>>)
      returns (ok: bool, written: seq<Written>)
    requires forall i, j :: 0 <= i < j < |keys| ==> keys[i] != keys[j]
    requires DistinctGrids(keys, histfile)
    modifies Grids(keys, histfile)
    ensures ok <==> KeysPresent(keys, histfile)
    ensures written == RecordsFor(keys[..PresentPrefix(keys, histfile)], old(GridContents(keys, histfile)))
    ensures ok ==> written == RecordsFor(keys, old(GridContents(keys, histfile)))
  {
    ghost var contents := GridContents(keys, histfile);
    written := [];
    var n := 0;
    while n < |keys|
      invariant 0 <= n <= |keys|
      invariant forall i :: 0 <= i < n ==> keys[i] in histfile && keys[i] in contents
      invariant forall i :: n <= i < |keys| && keys[i] in histfile ==> Cells(histfile[keys[i]]) == contents[keys[i]]
      invariant written == RecordsFor(keys[..n], contents)
    {
      var keyname := keys[n];
      if keyname !in histfile {
        PresentPrefixIs(keys, histfile, n);
        return false, written;
      }
      assert forall i :: n < i < |keys| && keys[i] in histfile ==> histfile[keys[i]] != histfile[keyname];
      assert keyname in contents && Cells(histfile[keyname]) == contents[keyname];
      var records := UnrollHistogram(histfile[keyname], keyname);
      assert records == UnrolledRecords(keyname, contents[keyname]);
      RecordsForStep(keys, n, contents);
      written := written + records;
      n := n + 1;
    }
    assert keys[..n] == keys;
    PresentPrefixIs(keys, histfile, n);
    ok := true;
  }

  /** `Unroll_2D_OnShell(directory, fname)`, with the input file given as
      its map from key to grid: unrolls `ggH_0PM`, `ggH_0M` and `bkg_ggzz`
      in that order. An empty directory is the source's error before the
      output file is created, `None`. A missing key is its error after the
      file was created: the output then holds the histograms of the keys
      before it and is marked incomplete. */
  method UnrollOnShell(directory: string, fname: string, histfile: map<string, array2<real>>)
      returns (r: Option<Output>)
    requires DistinctGrids(UnrolledKeys, histfile)
    modifies Grids(UnrolledKeys, histfile)
    ensures r.None? <==> |directory| == 0
    ensures r.Some? ==> r.value.path == OutputPath(directory, fname).value
    ensures r.Some? ==> (r.value.complete <==> KeysPresent(UnrolledKeys, histfile))
    ensures r.Some? ==> (r.value.written
      == RecordsFor(UnrolledKeys[..PresentPrefix(UnrolledKeys, histfile)], old(GridContents(UnrolledKeys, histfile))))
    ensures r.Some? && r.value.complete ==> (r.value.written
      == RecordsFor(UnrolledKeys, old(GridContents(UnrolledKeys, histfile))))
  {
    if |directory| == 0 {
      return None;
    }
    var dir := directory;
    if dir[|dir| - 1] != '/' {
      dir := dir + "/";
    }
    var base := BeforeFirst(fname, '.');
    var ok, written := UnrollKeys(UnrolledKeys, histfile);
    r := Some(Output(dir + base + "_unrolled.root", written, ok));
  }
}
