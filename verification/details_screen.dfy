/**
 * The breeding figures of the details page: `calculateGender` turns
 * PokéAPI's `gender_rate` (the female share in eighths, or -1 for a
 * genderless species) into the two percentages shown.
 *
 * Percentages are kept as integers counting tenths of a percent: a rate of
 * `r` eighths is `r * 12.5` percent, that is `r * 125` tenths, which is what
 * `toFixed(1)` prints exactly while the double arithmetic is exact (|r * 25|
 * below 2^53; PokéAPI's rates are -1..8).
 */
module DetailsScreen {
  import opened Text

  /** The split `calculateGender` computes before formatting it. */
  datatype GenderRatio = Genderless | Ratio(maleTenths: int, femaleTenths: int)

  /** The male and female texts `calculateGender` returns. */
  datatype GenderText = GenderText(male: string, female: string)

  const GenderlessRate: int := -1

  /**
   * Genderless exactly for rate -1; otherwise the female share is `rate`
   * eighths of the whole and the two shares make up exactly 100 percent,
   * each within [0, 100] for the rates 0..8 PokéAPI uses.
   */
  function GenderSplit(genderRate: int): (g: GenderRatio)
    ensures g.Genderless? <==> genderRate == GenderlessRate
    ensures g.Ratio? ==> g.femaleTenths * 8 == genderRate * 1000
    ensures g.Ratio? ==> g.maleTenths + g.femaleTenths == 1000
    ensures g.Ratio? && 0 <= genderRate <= 8 ==>
      0 <= g.femaleTenths <= 1000 && 0 <= g.maleTenths <= 1000
  {
    if genderRate == GenderlessRate then Genderless
    else
      var female := genderRate * 125;
      Ratio(1000 - female, female)
  }

  /** `${x.toFixed(1)}%` for `x` tenths of a percent. */
  function Percent(tenths: int): (p: string)
    ensures |p| >= 4 && p[|p| - 1] == '%' && p[|p| - 3] == '.' && IsDigit(p[|p| - 2])
    ensures tenths < 0 <==> p[0] == '-'
  {
    Fixed1(tenths) + "%"
  }

  /**
   * `calculateGender(genderRate)`: "Genderless" and nothing for rate -1;
   * otherwise "♂ m%" and "♀ f%" whose figures read back as the split.
   */
  function CalculateGender(genderRate: int): (t: GenderText)
    ensures genderRate == GenderlessRate <==> t == GenderText("Genderless", "")
    ensures genderRate != GenderlessRate ==>
      |t.male| > 3 && t.male[..2] == "♂ " && t.male[2..] == Percent(GenderSplit(genderRate).maleTenths)
    ensures genderRate != GenderlessRate ==>
      |t.female| > 3 && t.female[..2] == "♀ " && t.female[2..] == Percent(GenderSplit(genderRate).femaleTenths)
  {
    match GenderSplit(genderRate)
    case Genderless => GenderText("Genderless", "")
    case Ratio(m, f) =>
      var male := "♂ " + Percent(m);
      assert male[..2] == "♂ " && male[2..] == Percent(m);
      var female := "♀ " + Percent(f);
      assert female[..2] == "♀ " && female[2..] == Percent(f);
      assert male != "Genderless" by {
        assert male[0] == '♂';
      }
      GenderText(male, female)
  }

  /** The digits of a `Percent` text: the '%', the sign and the point dropped. */
  function PercentDigits(p: string): string
    requires |p| >= 1
  {
    Fixed1Digits(p[..|p| - 1])
  }

  /** For the rates PokéAPI uses, the two printed figures add up to 100.0. */
  lemma GenderFiguresSumToHundred(genderRate: int)
    requires 0 <= genderRate <= 8
    ensures var t := CalculateGender(genderRate);
            AllDigits(PercentDigits(t.male[2..])) && AllDigits(PercentDigits(t.female[2..])) &&
            ParseDecimal(PercentDigits(t.male[2..])) + ParseDecimal(PercentDigits(t.female[2..])) == 1000
  {
    var g := GenderSplit(genderRate);
    PercentReadsBack(g.maleTenths);
    PercentReadsBack(g.femaleTenths);
  }

  /** The digits of a non-negative `Percent` read back as its tenths. */
  lemma PercentReadsBack(tenths: int)
    requires tenths >= 0
    ensures AllDigits(PercentDigits(Percent(tenths)))
    ensures ParseDecimal(PercentDigits(Percent(tenths))) == tenths
  {
    var p := Percent(tenths);
    assert p[..|p| - 1] == Fixed1(tenths);
    Fixed1Value(tenths);
  }
}
