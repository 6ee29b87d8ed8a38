/** The two small helpers of the template code: `scale`, which rescales a
    histogram to a target absolute area while keeping every bin's sign, and
    `name_correctly`, which turns an interference probability name into a
    `ggH_` coupling name by walking its `_`-tokens. */
module TemplateHelperMethods {
  import opened Wrappers
  import opened Strings
  import opened Histograms

  /** `scale(counts, scaleto)`: `sign * |count| * scaleto / sum|counts|`,
      bin by bin. An all-zero histogram divides by zero (NaN in the source),
      so the absolute area must be positive. */
  function Scale(counts: seq<real>, scaleTo: real): (r: seq<real>)
    requires AbsSum(counts) > 0.0
    ensures |r| == |counts|
  {
    seq(|counts|, i requires 0 <= i < |counts| =>
      Sign(counts[i]) * Abs(counts[i]) * scaleTo / AbsSum(counts))
  }

  /** Scaling multiplies every bin by the one factor `scaleTo / area`. */
  lemma ScaleIsTimes(counts: seq<real>, scaleTo: real)
    requires AbsSum(counts) > 0.0
    ensures Scale(counts, scaleTo) == Times(counts, scaleTo / AbsSum(counts))
  {
    var s := AbsSum(counts);
    forall i | 0 <= i < |counts|
      ensures Scale(counts, scaleTo)[i] == Times(counts, scaleTo / s)[i]
    {
      SignTimesAbs(counts[i]);
      QuotientFactor(counts[i], scaleTo, s);
    }
  }

  /** Proof step only: a real is its sign times its absolute value. */
  lemma SignTimesAbs(x: real)
    ensures Sign(x) * Abs(x) == x
  {
  }

  /** Proof step only: regrouping `x * a / s` as `x * (a / s)`. */
  lemma QuotientFactor(x: real, a: real, s: real)
    requires s != 0.0
    ensures x * a / s == x * (a / s)
  {
  }

  /** The scaled histogram has absolute area `|scaleTo|`: the target area
      itself whenever the target is not negative. */
  lemma ScaleArea(counts: seq<real>, scaleTo: real)
    requires AbsSum(counts) > 0.0
    ensures AbsSum(Scale(counts, scaleTo)) == Abs(scaleTo)
  {
    var s := AbsSum(counts);
    ScaleIsTimes(counts, scaleTo);
    AbsSumTimes(counts, scaleTo / s);
    AbsQuotientTimes(scaleTo, s);
  }

  lemma AbsQuotientTimes(a: real, s: real)
    requires s > 0.0
    ensures Abs(a / s) * s == Abs(a)
  {
    if a < 0.0 {
      assert a / s < 0.0;
      assert -(a / s) * s == -a;
    }
  }

  /** Scaling to a positive area keeps the sign of every bin; in particular
      empty bins stay empty. */
  lemma ScaleKeepsSign(counts: seq<real>, scaleTo: real)
    requires AbsSum(counts) > 0.0 && scaleTo > 0.0
    ensures forall i :: 0 <= i < |counts| ==> Sign(Scale(counts, scaleTo)[i]) == Sign(counts[i])
  {
    var f := scaleTo / AbsSum(counts);
    ScaleIsTimes(counts, scaleTo);
    forall i | 0 <= i < |counts| ensures Sign(Times(counts, f)[i]) == Sign(counts[i]) {
      PositiveFactorKeepsSign(counts[i], f);
    }
  }

  lemma PositiveFactorKeepsSign(x: real, f: real)
    requires f > 0.0
    ensures Sign(x * f) == Sign(x)
  {
    if x < 0.0 {
      assert x * f < 0.0;
    } else if x > 0.0 {
      assert x * f > 0.0;
    }
  }

  /** Scaling an already scaled histogram to the same positive area changes
      nothing. */
  lemma ScaleIdempotent(counts: seq<real>, scaleTo: real)
    requires AbsSum(counts) > 0.0 && scaleTo > 0.0
    ensures AbsSum(Scale(counts, scaleTo)) > 0.0
    ensures Scale(Scale(counts, scaleTo), scaleTo) == Scale(counts, scaleTo)
  {
    var r := Scale(counts, scaleTo);
    assert AbsSum(r) == scaleTo by {
      ScaleArea(counts, scaleTo);
    }
    SelfQuotient(scaleTo, AbsSum(r));
    ScaleIsTimes(r, scaleTo);
    TimesOne(r);
  }

  /** Proof step only: a positive real divided by itself. */
  lemma SelfQuotient(a: real, b: real)
    requires a == b && b > 0.0
    ensures a / b == 1.0
  {
  }

  lemma TimesOne(s: seq<real>)
    ensures Times(s, 1.0) == s
  {
    forall i | 0 <= i < |s| ensures Times(s, 1.0)[i] == s[i] {
    }
  }

  /** A scaled histogram has a nonzero bin exactly when the target area is
      nonzero: scaling to zero empties every bin. */
  lemma ScaleNonzero(counts: seq<real>, scaleTo: real)
    requires AbsSum(counts) > 0.0
    ensures Any(Scale(counts, scaleTo)) <==> scaleTo != 0.0
  {
    ScaleArea(counts, scaleTo);
    AbsSumPositive(Scale(counts, scaleTo));
  }

  /** The text that `name_correctly` appends for the tokens from index `n`
      on: for every token containing `ghzpzp`, a `g`, the token's last
      character and the whole following token. A marked token with no
      following token is the source's index error, `None`. */
  function CouplingSuffix(tokens: seq<string>, n: nat): Option<string>
    decreases |tokens| - n
  {
    if n >= |tokens| then Some("")
    else if Contains(tokens[n], "ghzpzp") then
      if n + 1 == |tokens| then None
      else
        match CouplingSuffix(tokens, n + 1)
        case None => None
        case Some(rest) =>
          ContainsLength(tokens[n], "ghzpzp");
          Some("g" + [tokens[n][|tokens[n]| - 1]] + tokens[n + 1] + rest)
    else CouplingSuffix(tokens, n + 1)
  }

  /** `name_correctly(s)`: `ggH_` followed by the coupling suffix of the
      `_`-tokens of `s`. */
  function CouplingName(s: string): Option<string> {
    match CouplingSuffix(Split(s, '_'), 0)
    case None => None
    case Some(suffix) => Some("ggH_" + suffix)
  }

  /** `name_correctly`: the token loop with its running string. */
  method NameCorrectly(interfProbability: string) returns (r: Option<string>)
    ensures r == CouplingName(interfProbability)
    ensures r.Some? ==> StartsWith(r.value, "ggH_")
  {
    var parsingList := Split(interfProbability, '_');
    var named := "ggH_";
    var n := 0;
    while n < |parsingList|
      invariant 0 <= n <= |parsingList|
      invariant StartsWith(named, "ggH_")
      invariant CouplingName(interfProbability) ==
        match CouplingSuffix(parsingList, n)
        case None => None
        case Some(rest) => Some(named + rest)
      decreases |parsingList| - n
    {
      var token := parsingList[n];
      if Contains(token, "ghzpzp") {
        if n + 1 == |parsingList| {
          assert CouplingSuffix(parsingList, n) == None;
          return None;
        }
        ContainsLength(token, "ghzpzp");
        var piece := "g" + [token[|token| - 1]] + parsingList[n + 1];
        assert CouplingSuffix(parsingList, n) ==
          match CouplingSuffix(parsingList, n + 1)
          case None => None
          case Some(rest) => Some(piece + rest);
        forall rest: string ensures named + piece + rest == named + (piece + rest) {
        }
        ghost var before := named;
        named := named + ("g" + [token[|token| - 1]]);
        named := named + parsingList[n + 1];
        assert named == before + piece;
      }
      n := n + 1;
    }
    assert CouplingSuffix(parsingList, n) == Some("");
    assert named + "" == named;
    r := Some(named);
  }

  /** The name is undefined exactly when the last token carries the
      `ghzpzp` marker. */
  lemma {:induction false} CouplingSuffixFails(tokens: seq<string>, n: nat)
    requires n < |tokens|
    ensures CouplingSuffix(tokens, n).None? <==> Contains(tokens[|tokens| - 1], "ghzpzp")
    decreases |tokens| - n
  {
    if n + 1 < |tokens| {
      CouplingSuffixFails(tokens, n + 1);
    }
  }

  /** A name is produced exactly when the last `_`-token lacks `ghzpzp`,
      and a name without any `ghzpzp` token is just `ggH_`. */
  lemma CouplingNameDefined(s: string)
    ensures CouplingName(s).None? <==> Contains(Split(s, '_')[|Split(s, '_')| - 1], "ghzpzp")
  {
    CouplingSuffixFails(Split(s, '_'), 0);
  }

  /** Without any `ghzpzp` token nothing is appended. */
  lemma {:induction false} CouplingSuffixUnmarked(tokens: seq<string>, n: nat)
    requires forall j :: 0 <= j < |tokens| ==> !Contains(tokens[j], "ghzpzp")
    ensures CouplingSuffix(tokens, n) == Some("")
    decreases |tokens| - n
  {
    if n < |tokens| {
      CouplingSuffixUnmarked(tokens, n + 1);
    }
  }

  lemma CouplingNameUnmarked(s: string)
    requires forall j :: 0 <= j < |Split(s, '_')| ==> !Contains(Split(s, '_')[j], "ghzpzp")
    ensures CouplingName(s) == Some("ggH_")
  {
    CouplingSuffixUnmarked(Split(s, '_'), 0);
    assert "ggH_" + "" == "ggH_";
  }

  /** One marked token contributes `g`, its last character and the next
      token. */
  lemma CouplingNameExample(s: string)
    requires s == "p_ghzpzp2_0p5"
    ensures CouplingName(s) == Some("ggH_g20p5")
  {
    var tokens := ["p", "ghzpzp2", "0p5"];
    SplitThree(s, tokens[0], tokens[1], tokens[2], '_');
    ExampleSuffix(tokens);
    assert "ggH_" + "g20p5" == "ggH_g20p5";
  }

  lemma ExampleSuffix(tokens: seq<string>)
    requires tokens == ["p", "ghzpzp2", "0p5"]
    ensures CouplingSuffix(tokens, 0) == Some("g20p5")
  {
    assert CouplingSuffix(tokens, 2) == Some("") by {
      MissingCharNotContained("0p5", "ghzpzp", 0);
      assert CouplingSuffix(tokens, 3) == Some("");
    }
    assert CouplingSuffix(tokens, 1) == Some("g20p5") by {
      assert Contains("ghzpzp2", "ghzpzp");
      assert tokens[1][|tokens[1]| - 1] == '2';
      assert "g" + ['2'] + "0p5" + "" == "g20p5";
    }
    MissingCharNotContained("p", "ghzpzp", 0);
  }
}
