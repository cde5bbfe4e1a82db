/**
 * The keystroke sanitiser `formatCurrencyInput` that the bill-total and
 * service-charge fields apply to every edit, and what it guarantees about the
 * text it leaves in the field.
 */
module CurrencyInput {
  import opened Text

  /** The characters the sanitiser lets through: digits, ',' and '.'. */
  predicate IsAllowed(c: char) { IsDigit(c) || c == ',' || c == '.' }

  predicate AllAllowed(s: string) { forall c | c in s :: IsAllowed(c) }

  predicate AllDigits(s: string) { forall c | c in s :: IsDigit(c) }

  /** `text.replace(/[^0-9,.]/g, '')`. */
  function Clean(text: string): string
  {
    Filter(text, IsAllowed)
  }

  /** `cleanText.replace(',', '.')`: the first comma becomes a decimal point. */
  function Normalize(cleanText: string): string
  {
    ReplaceFirst(cleanText, ',', '.')
  }

  /** The digits of `s`, in order. */
  function Digits(s: string): string
  {
    Filter(s, IsDigit)
  }

  /** `formatCurrencyInput(text)`: when the text, with its first comma read as a
      point, has two or more points, the part before the first point, a point,
      and the remaining parts glued together; otherwise the cleaned text as it
      is, commas included. */
  function FormatCurrencyInput(text: string): string
  {
    var cleanText := Clean(text);
    var normalized := Normalize(cleanText);
    var parts := Split(normalized, '.');
    if |parts| > 2 then parts[0] + "." + Join(parts[1..], "") else cleanText
  }

  // ---------------------------------------------------------------------
  // What the sanitiser guarantees

  /** Normalising adds one point exactly when the cleaned text has a comma,
      and keeps the text inside the allowed characters. */
  lemma NormalizeFacts(cleanText: string)
    requires AllAllowed(cleanText)
    ensures AllAllowed(Normalize(cleanText))
    ensures Count(Normalize(cleanText), '.') == Count(cleanText, '.') + if ',' in cleanText then 1 else 0
  {
    CountReplaceFirst(cleanText, ',', '.');
    ReplaceFirstSpec(cleanText, ',', '.');
    var n := Normalize(cleanText);
    forall c | c in n ensures IsAllowed(c) {
      var i :| 0 <= i < |n| && n[i] == c;
    }
  }

  /** The two outcomes of the sanitiser: with at least two points after
      normalising, the normalised text with only its first point kept (all
      later points, a comma turned point among them, are dropped); otherwise
      the cleaned text, commas included. */
  lemma FormatCases(text: string)
    ensures var normalized := Normalize(Clean(text));
            FormatCurrencyInput(text) ==
              if Count(normalized, '.') >= 2 then KeepFirstOnly(normalized, '.') else Clean(text)
  {
    var normalized := Normalize(Clean(text));
    SplitCount(normalized, '.');
    if Count(normalized, '.') >= 2 {
      SplitHeadJoinTail(normalized, '.');
    }
  }

  /** The field never holds anything but digits, ',' and '.'. */
  lemma FormatOnlyAllowed(text: string)
    ensures AllAllowed(FormatCurrencyInput(text))
  {
    var normalized := Normalize(Clean(text));
    FormatCases(text);
    CleanFacts(text);
    NormalizeFacts(Clean(text));
    if Count(normalized, '.') >= 2 {
      CountZero(normalized, '.');
      KeepFirstOnlyFacts(normalized, '.');
    }
  }

  /** The result has at most one '.', and exactly one when it collapsed several. */
  lemma FormatAtMostOnePeriod(text: string)
    ensures Count(FormatCurrencyInput(text), '.') <= 1
    ensures Count(Normalize(Clean(text)), '.') >= 2 ==> Count(FormatCurrencyInput(text), '.') == 1
  {
    var normalized := Normalize(Clean(text));
    FormatCases(text);
    CleanFacts(text);
    NormalizeFacts(Clean(text));
    if Count(normalized, '.') >= 2 {
      CountZero(normalized, '.');
      KeepFirstOnlyFacts(normalized, '.');
    }
  }

  /** The cleaned text comes back unchanged, commas preserved, exactly when
      normalising its first comma leaves at most one point. */
  lemma FormatIdentityIff(text: string)
    ensures FormatCurrencyInput(text) == Clean(text) <==> Count(Normalize(Clean(text)), '.') <= 1
  {
    var normalized := Normalize(Clean(text));
    FormatCases(text);
    if Count(normalized, '.') >= 2 {
      CountZero(normalized, '.');
      KeepFirstOnlyFacts(normalized, '.');
      assert |FormatCurrencyInput(text)| < |Clean(text)|;
    }
  }

  /** Empty input, or input with none of the allowed characters, gives "". */
  lemma FormatNothingAllowed(text: string)
    requires forall c | c in text :: !IsAllowed(c)
    ensures FormatCurrencyInput(text) == ""
  {
    FilterFacts(text, IsAllowed);
    assert Clean(text) == [];
    FormatCases(text);
  }

  /** Text already over the allowed characters with no comma and at most one
      point, such as "120.50", is left alone. */
  lemma FormatKeepsPlainDecimal(text: string)
    requires AllAllowed(text) && ',' !in text && Count(text, '.') <= 1
    ensures FormatCurrencyInput(text) == text
  {
    CleanAllowed(text);
    FormatCases(text);
  }

  /** The digits survive in their original order and the text never grows. */
  lemma FormatKeepsDigits(text: string)
    ensures Digits(FormatCurrencyInput(text)) == Digits(text)
    ensures |FormatCurrencyInput(text)| <= |text|
  {
    var cleanText := Clean(text);
    var normalized := Normalize(cleanText);
    FormatCases(text);
    FilterNested(text, IsAllowed, IsDigit);
    if Count(normalized, '.') >= 2 {
      FilterKeepFirstOnly(normalized, '.', IsDigit);
      FilterReplaceFirst(cleanText, ',', '.', IsDigit);
      CountZero(normalized, '.');
      KeepFirstOnlyFacts(normalized, '.');
    }
  }

  /** Digit groups separated by two points, as in "1.234.56": the first point
      stays and the second disappears, giving "1.23456". */
  lemma FormatTwoPoints(a: string, b: string, d: string)
    requires AllDigits(a) && AllDigits(b) && AllDigits(d)
    ensures FormatCurrencyInput(a + "." + b + "." + d) == a + "." + b + d
  {
    var rest := b + ['.'] + d;
    var text := a + ['.'] + rest;
    TwoPointsAllowed(a, b, d);
    TwoPointsCount(a, b, d);
    TwoPointsRemoved(b, d);
    DigitsFree(a);
    calc {
      FormatCurrencyInput(a + "." + b + "." + d);
      { assert a + "." + b + "." + d == text; }
      FormatCurrencyInput(text);
      { FormatCases(text); CleanAllowed(text); assert Normalize(text) == text; }
      KeepFirstOnly(text, '.');
      { KeepFirstOnlyAt(a, rest, '.'); }
      a + ['.'] + (b + d);
      a + "." + b + d;
    }
  }

  lemma TwoPointsAllowed(a: string, b: string, d: string)
    requires AllDigits(a) && AllDigits(b) && AllDigits(d)
    ensures AllAllowed(a + ['.'] + (b + ['.'] + d))
    ensures ',' !in a + ['.'] + (b + ['.'] + d)
  {
    DigitsFree(a);
    DigitsFree(b);
    DigitsFree(d);
  }

  lemma TwoPointsCount(a: string, b: string, d: string)
    requires AllDigits(a) && AllDigits(b) && AllDigits(d)
    ensures Count(a + ['.'] + (b + ['.'] + d), '.') == 2
  {
    DigitsFree(a);
    DigitsFree(b);
    DigitsFree(d);
    CountAppend(a + ['.'], b + ['.'] + d, '.');
    CountAppend(a, ['.'], '.');
    CountAppend(b + ['.'], d, '.');
    CountAppend(b, ['.'], '.');
    CountZero(a, '.');
    CountZero(b, '.');
    CountZero(d, '.');
  }

  lemma TwoPointsRemoved(b: string, d: string)
    requires AllDigits(b) && AllDigits(d)
    ensures RemoveAll(b + ['.'] + d, '.') == b + d
  {
    DigitsFree(b);
    DigitsFree(d);
    RemoveAllAppend(b + ['.'], d, '.');
    RemoveAllAppend(b, ['.'], '.');
    assert RemoveAll(['.'], '.') == [];
    RemoveAllNone(b, '.');
    RemoveAllNone(d, '.');
    assert b + [] == b;
  }

  /** "1.234.56" collapses to "1.23456", a number with one decimal point. */
  lemma FormatExampleThousands()
    ensures FormatCurrencyInput("1.234.56") == "1.23456"
  {
    FormatTwoPoints("1", "234", "56");
    assert "1" + "." + "234" + "." + "56" == "1.234.56";
    assert "1" + "." + "234" + "56" == "1.23456";
  }

  /** A decimal written with a comma, such as "120,50", is left in the field as
      it is: normalising gives it a single point, so nothing collapses. */
  lemma FormatKeepsCommaDecimal(w: string, f: string)
    requires AllDigits(w) && AllDigits(f)
    ensures FormatCurrencyInput(w + "," + f) == w + "," + f
  {
    var text := w + "," + f;
    DigitsFree(w);
    DigitsFree(f);
    assert AllAllowed(text);
    CleanAllowed(text);
    NormalizeFacts(text);
    assert '.' !in text;
    CountZero(text, '.');
    FormatIdentityIff(text);
  }

  /** Cleaning text that is already over the allowed characters changes nothing. */
  lemma CleanAllowed(s: string)
    requires AllAllowed(s)
    ensures Clean(s) == s
  {
    FilterFacts(s, IsAllowed);
  }

  /** Cleaning leaves only allowed characters. */
  lemma CleanFacts(text: string)
    ensures AllAllowed(Clean(text))
  {
    FilterFacts(text, IsAllowed);
  }

  /** A digit string is over the allowed characters and has no point or comma. */
  lemma DigitsFree(s: string)
    requires AllDigits(s)
    ensures AllAllowed(s) && '.' !in s && ',' !in s
  {
  }
}
