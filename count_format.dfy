/**
 * The abbreviated item counts of the all-inventory window
 * (WindowHutAllInventory.format): a Java `long` shown with at most three
 * digits and a suffix letter, as in 1000 -> "1k", 1200 -> "1.2k",
 * 13000 -> "13k".
 */
module CountFormat {

  const LONG_MIN: int := -0x8000_0000_0000_0000
  const LONG_MAX: int := 0x7FFF_FFFF_FFFF_FFFF

  /** The suffix table: thresholds 10^3 to 10^18 with their letters. */
  const Suffixes: seq<(int, char)> := [
    (1_000, 'k'), (1_000_000, 'M'), (1_000_000_000, 'G'), (1_000_000_000_000, 'T'),
    (1_000_000_000_000_000, 'P'), (1_000_000_000_000_000_000, 'E')]

  /** `suffixes.floorEntry(v)`: the index of the largest threshold not above v. */
  function FloorEntry(v: int): (i: nat)
    requires v >= 1000
    ensures i < |Suffixes| && Suffixes[i].0 <= v
    ensures i + 1 < |Suffixes| ==> v < Suffixes[i + 1].0
  {
    if v >= 1_000_000_000_000_000_000 then 5
    else if v >= 1_000_000_000_000_000 then 4
    else if v >= 1_000_000_000_000 then 3
    else if v >= 1_000_000_000 then 2
    else if v >= 1_000_000 then 1
    else 0
  }

  function DigitChar(d: int): (c: char)
    requires 0 <= d < 10
    ensures '0' <= c <= '9' && c as int - '0' as int == d
  {
    (d + '0' as int) as char
  }

  /** `Long.toString` of a non-negative value: its decimal digits, no leading zero. */
  function NatToString(n: nat): (s: string)
    ensures 1 <= |s| && forall i :: 0 <= i < |s| ==> '0' <= s[i] <= '9'
    ensures n < 10 ==> |s| == 1
    ensures n < 100 ==> |s| <= 2
    ensures n < 1000 ==> |s| <= 3
  {
    if n < 10 then [DigitChar(n)] else NatToString(n / 10) + [DigitChar(n % 10)]
  }

  /** The value of a string of decimal digits. */
  function ParseNat(s: string): nat {
    if s == [] then 0
    else
      var d := s[|s| - 1] as int - '0' as int;
      ParseNat(s[..|s| - 1]) * 10 + (if 0 <= d < 10 then d else 0)
  }

  /** Reading back the decimal digits gives the number. */
  lemma {:induction false} ParseNatToString(n: nat)
    ensures ParseNat(NatToString(n)) == n
    decreases n
  {
    if n >= 10 {
      ParseNatToString(n / 10);
      var s := NatToString(n);
      assert s[..|s| - 1] == NatToString(n / 10);
    } else {
      assert NatToString(n)[..0] == [];
    }
  }

  /**
   * `format(value)`: the minimum value is shown as the one above it, a
   * negative value as a minus sign and its magnitude, a value below 1000 in
   * full, and any other value abbreviated.
   */
  function Format(v: int): (s: string)
    requires LONG_MIN <= v <= LONG_MAX
    ensures s != [] && (0 <= v ==> '0' <= s[0] <= '9')
    decreases if v == LONG_MIN then 2 else if v < 0 then 1 else 0
  {
    if v == LONG_MIN then Format(LONG_MIN + 1)
    else if v < 0 then "-" + Format(-v)
    else if v < 1000 then NatToString(v)
    else Abbreviate(v)
  }

  /**
   * The abbreviation of v >= 1000: `truncated` is v divided by a tenth of
   * the threshold, the value shown is `truncated / 10`, and one decimal is
   * printed when `truncated` is below 100 and not a multiple of 10 (the
   * floating-point test in `format`, whether `truncated / 10` has a
   * fractional part, amounts to exactly that).
   */
  function Abbreviate(v: int): (s: string)
    requires v >= 1000
    ensures |s| >= 2 && '0' <= s[0] <= '9'
    ensures s[|s| - 1] == Suffixes[FloorEntry(v)].1
  {
    var e := FloorEntry(v);
    var truncated := v / (Suffixes[e].0 / 10);
    var hasDecimal := truncated < 100 && truncated % 10 != 0;
    if hasDecimal then NatToString(truncated / 10) + "." + [DigitChar(truncated % 10)] + [Suffixes[e].1]
    else NatToString(truncated / 10) + [Suffixes[e].1]
  }

  /** The threshold a suffix letter stands for (1 for any other character). */
  function Multiplier(c: char): (m: int)
    ensures m >= 1
  {
    if c == 'k' then 1_000
    else if c == 'M' then 1_000_000
    else if c == 'G' then 1_000_000_000
    else if c == 'T' then 1_000_000_000_000
    else if c == 'P' then 1_000_000_000_000_000
    else if c == 'E' then 1_000_000_000_000_000_000
    else 1
  }

  /**
   * The quantity an abbreviation denotes: digits with an optional single
   * decimal, times the multiplier of the final suffix letter.
   */
  function ReadBack(s: string): int
    requires |s| >= 2
  {
    var body := s[..|s| - 1];
    var unit := Multiplier(s[|s| - 1]) / 10;
    if |body| >= 3 && body[|body| - 2] == '.' then
      (ParseNat(body[..|body| - 2]) * 10 + ParseNat(body[|body| - 1..])) * unit
    else
      ParseNat(body) * 10 * unit
  }

  /** Every threshold is a multiple of 10 and is the multiplier of its letter. */
  lemma SuffixTable(e: nat)
    requires e < |Suffixes|
    ensures Multiplier(Suffixes[e].1) == Suffixes[e].0
    ensures Suffixes[e].0 % 10 == 0 && Suffixes[e].0 >= 1000
    ensures e + 1 < |Suffixes| ==> Suffixes[e + 1].0 == 1000 * Suffixes[e].0
  {
  }

  /** Reading back a whole number with a suffix letter. */
  lemma ReadBackWhole(w: nat, c: char)
    ensures ReadBack(NatToString(w) + [c]) == w * 10 * (Multiplier(c) / 10)
  {
    var s := NatToString(w) + [c];
    var body := s[..|s| - 1];
    assert body == NatToString(w);
    if |body| >= 3 {
      assert '0' <= body[|body| - 2] <= '9';
    }
    ParseNatToString(w);
  }

  /** Reading back a number with one decimal and a suffix letter. */
  lemma ReadBackDecimal(w: nat, d: int, c: char)
    requires 0 <= d < 10
    ensures ReadBack(NatToString(w) + "." + [DigitChar(d)] + [c]) == (w * 10 + d) * (Multiplier(c) / 10)
  {
    var whole := NatToString(w);
    DecimalParts(whole, DigitChar(d), c);
    DecimalReadBack(whole + "." + [DigitChar(d)] + [c], whole, DigitChar(d), c);
    ParseNatToString(w);
    assert ParseNat([DigitChar(d)]) == d by {
      assert [DigitChar(d)][..0] == [];
    }
    ScaledEqual(ParseNat(whole) * 10 + ParseNat([DigitChar(d)]), w * 10 + d, Multiplier(c) / 10);
  }

  /** Where the parts of an abbreviation with a decimal stand. */
  lemma DecimalParts(whole: string, digit: char, c: char)
    requires |whole| >= 1
    ensures var s := whole + "." + [digit] + [c];
      DecimalLayout(s, whole, digit, c)
  {
    var s := whole + "." + [digit] + [c];
    assert s[..|s| - 1] == whole + "." + [digit];
  }

  /** `s` is `whole`, a point, one digit and the letter c. */
  predicate DecimalLayout(s: string, whole: string, digit: char, c: char) {
    && |s| >= 4 && s[|s| - 1] == c
    && var body := s[..|s| - 1];
    && body[|body| - 2] == '.' && body[..|body| - 2] == whole && body[|body| - 1..] == [digit]
  }

  /** An abbreviation with a decimal reads back as its whole part and digit, in tenths of the unit. */
  lemma DecimalReadBack(s: string, whole: string, digit: char, c: char)
    requires DecimalLayout(s, whole, digit, c)
    ensures ReadBack(s) == (ParseNat(whole) * 10 + ParseNat([digit])) * (Multiplier(c) / 10)
  {
  }

  /** Equal amounts of the same unit are equal. */
  lemma ScaledEqual(x: int, y: int, unit: int)
    requires x == y
    ensures x * unit == y * unit
  {
  }

  /**
   * The abbreviation of v >= 1000 reads back as v rounded down: to a tenth
   * of the threshold while the shown value is below 10, otherwise to a
   * whole threshold.
   */
  lemma FormatReadsBack(v: int)
    requires 1000 <= v <= LONG_MAX
    ensures |Format(v)| >= 2
    ensures ReadBack(Format(v)) <= v < ReadBack(Format(v)) + Suffixes[FloorEntry(v)].0
    ensures v < 10 * Suffixes[FloorEntry(v)].0 ==> v < ReadBack(Format(v)) + Suffixes[FloorEntry(v)].0 / 10
  {
    assert Format(v) == Abbreviate(v);
    AbbreviateReadsBack(v, FloorEntry(v));
  }

  lemma AbbreviateReadsBack(v: int, e: nat)
    requires v >= 1000 && e == FloorEntry(v)
    ensures |Abbreviate(v)| >= 2
    ensures ReadBack(Abbreviate(v)) <= v < ReadBack(Abbreviate(v)) + Suffixes[e].0
    ensures v < 10 * Suffixes[e].0 ==> v < ReadBack(Abbreviate(v)) + Suffixes[e].0 / 10
  {
    var th := Suffixes[e].0;
    var c := Suffixes[e].1;
    SuffixTable(e);
    var unit := th / 10;
    var t := v / unit;
    var s := Abbreviate(v);
    if t < 100 && t % 10 != 0 {
      assert s == NatToString(t / 10) + "." + [DigitChar(t % 10)] + [c];
      ReadBackDecimal(t / 10, t % 10, c);
      assert t / 10 * 10 + t % 10 == t;
      RoundingBounds(v, unit, t, true);
    } else {
      assert s == NatToString(t / 10) + [c];
      ReadBackWhole(t / 10, c);
      RoundingBounds(v, unit, t, false);
    }
  }

  /**
   * The arithmetic of the abbreviation: v in units of `unit` is t; what is
   * shown is t itself (with a decimal) or t rounded down to tens.
   */
  lemma RoundingBounds(v: int, unit: int, t: int, decimal: bool)
    requires v >= 0 && unit >= 1 && t == v / unit
    requires decimal ==> t < 100
    requires !decimal ==> t >= 100 || t % 10 == 0
    ensures var r := if decimal then t * unit else (t / 10) * 10 * unit;
      && r <= v < r + 10 * unit
      && (v < 100 * unit ==> v < r + unit)
  {
    DivisionBounds(v, unit);
    var q := t / 10;
    var d := t % 10;
    TensSplit(t, unit);
    if v < 100 * unit && t >= 100 {
      MulMonotone(100, t, unit);
      assert false;
    }
  }

  lemma DivisionBounds(v: int, unit: int)
    requires v >= 0 && unit >= 1
    ensures (v / unit) * unit <= v < (v / unit) * unit + unit
  {
  }

  lemma TensSplit(t: int, unit: int)
    requires t >= 0 && unit >= 1
    ensures (t / 10) * 10 * unit <= t * unit
    ensures t * unit + unit <= (t / 10) * 10 * unit + 10 * unit
  {
    var q := t / 10;
    var d := t % 10;
    assert t == q * 10 + d;
    assert t * unit == q * 10 * unit + d * unit;
    MulMonotone(d, 9, unit);
    MulMonotone(0, d, unit);
  }

  lemma MulMonotone(a: int, b: int, c: int)
    requires a <= b && c >= 0
    ensures a * c <= b * c
  {
  }

  /** The value shown before the suffix stays below 1000. */
  lemma ShownBelowThousand(v: int)
    requires 1000 <= v <= LONG_MAX
    ensures v / (Suffixes[FloorEntry(v)].0 / 10) / 10 < 1000
  {
    var e := FloorEntry(v);
    SuffixTable(e);
    var unit := Suffixes[e].0 / 10;
    assert v < 10000 * unit by {
      if e + 1 < |Suffixes| {
        assert v < Suffixes[e + 1].0;
      }
    }
    assert v / unit < 10000;
  }

  /** Abbreviations are short: at most 4 characters, 5 with a minus sign; the sign shows exactly for negative values. */
  lemma {:induction false} FormatIsShort(v: int)
    requires LONG_MIN <= v <= LONG_MAX
    ensures 0 <= v ==> |Format(v)| <= 4
    ensures 1 <= |Format(v)| <= 5
    ensures Format(v)[0] == '-' <==> v < 0
    decreases if v == LONG_MIN then 2 else if v < 0 then 1 else 0
  {
    if v == LONG_MIN {
      FormatIsShort(LONG_MIN + 1);
    } else if v < 0 {
      FormatIsShort(-v);
    } else if v >= 1000 {
      ShownBelowThousand(v);
    }
  }

  /** Values below 1000 are printed in full and read back exactly. */
  lemma FormatSmall(v: int)
    requires 0 <= v < 1000
    ensures ParseNat(Format(v)) == v
    ensures forall i :: 0 <= i < |Format(v)| ==> '0' <= Format(v)[i] <= '9'
  {
    ParseNatToString(v);
  }

  /** The examples in the Javadoc of `format`: 1000, 1200 and 13000. */
  lemma FormatExamples()
    ensures Format(1000) == "1k" && Format(1200) == "1.2k" && Format(13000) == "13k"
  {
    assert FloorEntry(1000) == 0 && FloorEntry(1200) == 0 && FloorEntry(13000) == 0;
    assert Suffixes[0] == (1000, 'k');
    assert NatToString(1) == "1";
    assert NatToString(13) == "13" by {
      assert NatToString(13) == NatToString(1) + [DigitChar(3)];
    }
    assert Abbreviate(1000) == NatToString(1) + ['k'];
    assert Abbreviate(1200) == NatToString(1) + "." + [DigitChar(2)] + ['k'];
    assert Abbreviate(13000) == NatToString(13) + ['k'];
  }
}
