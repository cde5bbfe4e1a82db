/**
 * The bill-splitting screen: four state slots (the total, the number of
 * people, the optional service-charge percentage, and the per-person result),
 * the edit handlers that fill the slots, and the "Calcular" and "Limpar"
 * actions.
 */
module BillSplit {
  import opened Wrappers
  import opened Text
  import opened CurrencyInput
  import opened NumberParsing

  /** The three alerts `calculate` can raise, in the order it checks for them. */
  datatype ValidationError = InvalidTotal | InvalidPeopleCount | InvalidTipPercent

  /** `parseFloat(text.replace(',', '.'))`, as the total and the service
      charge are read; the amount can only be negative when the text holds a
      '-'. */
  function ParseAmount(text: string): (r: Option<real>)
    ensures r.Some? && r.value < 0.0 ==> '-' in text
  {
    ReplaceFirstSpec(text, ',', '.');
    ParseDecimal(ReplaceFirst(text, ',', '.'))
  }

  /** The total plus `tip` percent of it, divided evenly among `people`;
      positive for a positive total and a charge that is not negative. */
  function Share(total: real, people: int, tip: real): (share: real)
    requires people > 0
    ensures total > 0.0 && tip >= 0.0 ==> share > 0.0
  {
    (total + total * tip / 100.0) / people as real
  }

  /** The total must parse to a number above zero. */
  predicate TotalAccepted(totalText: string)
    ensures TotalAccepted(totalText) ==> totalText != []
  {
    var total := ParseAmount(totalText);
    total.Some? && total.value > 0.0
  }

  /** The head count must parse, as an integer, to a number above zero. */
  predicate PeopleAccepted(peopleText: string)
    ensures PeopleAccepted(peopleText) ==> peopleText != []
  {
    var people := ParseInt(peopleText);
    people.Some? && people.value > 0
  }

  /** The service charge is optional; when given it must parse to a number
      that is not negative. Text without a '-' is refused only when it is not
      a number. */
  predicate TipAccepted(tipText: string)
    ensures '-' !in tipText ==> (TipAccepted(tipText) <==> tipText == [] || ParseAmount(tipText).Some?)
  {
    tipText == [] || (var tip := ParseAmount(tipText); tip.Some? && tip.value >= 0.0)
  }

  /** The service-charge percentage used: 0 when the field is empty. */
  function TipPercent(tipText: string): (percent: real)
    requires TipAccepted(tipText)
    ensures percent >= 0.0
  {
    if tipText == [] then 0.0 else ParseAmount(tipText).value
  }

  /** What `calculate` decides for the three field texts: the first failed
      check, or the per-person share. */
  function Evaluate(totalText: string, peopleText: string, tipText: string): (r: Result<real, ValidationError>)
    ensures r.Success? ==> r.value > 0.0
  {
    if !TotalAccepted(totalText) then Failure(InvalidTotal)
    else if !PeopleAccepted(peopleText) then Failure(InvalidPeopleCount)
    else if !TipAccepted(tipText) then Failure(InvalidTipPercent)
    else Success(Share(ParseAmount(totalText).value, ParseInt(peopleText).value, TipPercent(tipText)))
  }

  // ---------------------------------------------------------------------
  // The screen's state

  class DivApp {
    var total: string
    var people: string
    var tip: string
    var result: Option<real>

    /** The sanitised fields hold only digits, ',' and '.', and a shown result
        is a positive amount. */
    ghost predicate Valid()
      reads this
    {
      AllAllowed(total) && AllAllowed(tip) && (result.Some? ==> result.value > 0.0)
    }

    /** All three fields start empty and no result is shown. */
    constructor ()
      ensures Valid()
      ensures total == [] && people == [] && tip == [] && result == None
    {
      total, people, tip, result := [], [], [], None;
    }

    /** Typing in the total field stores the sanitised text. */
    method EditTotal(text: string)
      requires Valid()
      modifies this`total
      ensures Valid()
      ensures total == FormatCurrencyInput(text)
    {
      FormatOnlyAllowed(text);
      total := FormatCurrencyInput(text);
    }

    /** Typing in the head-count field stores the text as typed. */
    method EditPeople(text: string)
      requires Valid()
      modifies this`people
      ensures Valid()
      ensures people == text
    {
      people := text;
    }

    /** Typing in the service-charge field stores the sanitised text. */
    method EditTip(text: string)
      requires Valid()
      modifies this`tip
      ensures Valid()
      ensures tip == FormatCurrencyInput(text)
    {
      FormatOnlyAllowed(text);
      tip := FormatCurrencyInput(text);
    }

    /** "Calcular": checks the total, then the head count, then the service
        charge, and stops at the first that fails, reporting it and leaving
        the result as it was; otherwise shows the per-person share. The
        fields themselves never change. */
    method Calculate() returns (error: Option<ValidationError>)
      requires Valid()
      modifies this`result
      ensures Valid()
      ensures error.None? <==> Evaluate(total, people, tip).Success?
      ensures error.Some? ==> Evaluate(total, people, tip) == Failure(error.value) && result == old(result)
      ensures error.None? ==> result == Some(Evaluate(total, people, tip).value)
      ensures error == Some(InvalidTotal) ==> ParseAmount(total).None? || ParseAmount(total).value == 0.0
      ensures error == Some(InvalidTipPercent) ==> tip != [] && ParseAmount(tip).None?
    {
      var totalNum := ParseAmount(total);
      var peopleNum := ParseInt(people);
      var tipNum := if tip != [] then ParseAmount(tip) else Some(0.0);

      if totalNum.None? || totalNum.value <= 0.0 {
        assert '-' !in total;
        assert !TotalAccepted(total);
        return Some(InvalidTotal);
      }
      if peopleNum.None? || peopleNum.value <= 0 {
        assert TotalAccepted(total) && !PeopleAccepted(people);
        return Some(InvalidPeopleCount);
      }
      if tip != [] && (tipNum.None? || tipNum.value < 0.0) {
        assert '-' !in tip;
        assert TotalAccepted(total) && PeopleAccepted(people) && !TipAccepted(tip);
        return Some(InvalidTipPercent);
      }

      assert TotalAccepted(total) && PeopleAccepted(people) && TipAccepted(tip);
      assert tipNum.value == TipPercent(tip);
      // totalWithTip / peopleNum, with totalWithTip = total + total * tip / 100
      var perPerson := Share(totalNum.value, peopleNum.value, tipNum.value);
      result := Some(perPerson);
      error := None;
    }

    /** "Limpar": empties the three fields and hides the result, whatever
        the state was. */
    method Reset()
      modifies this
      ensures Valid()
      ensures total == [] && people == [] && tip == [] && result == None
    {
      total := [];
      people := [];
      tip := [];
      result := None;
    }
  }

  // ---------------------------------------------------------------------
  // Properties of the calculation

  /** The shares add back up to the total with its service charge. */
  lemma ShareRoundTrip(total: real, people: int, tip: real)
    requires people > 0
    ensures Share(total, people, tip) * people as real == total * (1.0 + tip / 100.0)
  {
    var withTip := total + total * tip / 100.0;
    assert withTip == total * (1.0 + tip / 100.0);
    var n := people as real;
    assert withTip / n * n == withTip;
  }

  /** The checks run in a fixed order and only the first failure is reported. */
  lemma ValidationOrder(totalText: string, peopleText: string, tipText: string)
    ensures var r := Evaluate(totalText, peopleText, tipText);
            (r == Failure(InvalidTotal) <==> !TotalAccepted(totalText)) &&
            (r == Failure(InvalidPeopleCount) <==> TotalAccepted(totalText) && !PeopleAccepted(peopleText)) &&
            (r == Failure(InvalidTipPercent) <==>
               TotalAccepted(totalText) && PeopleAccepted(peopleText) && !TipAccepted(tipText)) &&
            (r.Success? <==> TotalAccepted(totalText) && PeopleAccepted(peopleText) && TipAccepted(tipText))
  {
  }

  /** `calculate` succeeds exactly when all three checks pass, and then the
      share is the closed form applied to the parsed total, head count and
      charge, and it is positive. */
  lemma SuccessClosedForm(totalText: string, peopleText: string, tipText: string)
    ensures Evaluate(totalText, peopleText, tipText).Success? <==>
              TotalAccepted(totalText) && PeopleAccepted(peopleText) && TipAccepted(tipText)
    ensures Evaluate(totalText, peopleText, tipText).Success? ==>
              var total := ParseAmount(totalText).value;
              var people := ParseInt(peopleText).value;
              var tip := TipPercent(tipText);
              total > 0.0 && people > 0 && tip >= 0.0 &&
              Evaluate(totalText, peopleText, tipText) == Success(Share(total, people, tip)) &&
              Share(total, people, tip) > 0.0
  {
  }

  /** A sanitised service charge can only be rejected for not being a
      number: with no '-' in the field the amount is never negative. */
  lemma TipRejectedOnlyWhenUnparseable(totalText: string, peopleText: string, tipText: string)
    requires AllAllowed(tipText)
    ensures Evaluate(totalText, peopleText, tipText) == Failure(InvalidTipPercent) <==>
              TotalAccepted(totalText) && PeopleAccepted(peopleText) &&
              tipText != [] && ParseAmount(tipText).None?
  {
  }

  /** Leaving the service charge empty is the same as typing "0", and never
      raises the service-charge alert. */
  lemma EmptyTipIsZeroTip(totalText: string, peopleText: string)
    ensures Evaluate(totalText, peopleText, "") == Evaluate(totalText, peopleText, "0")
    ensures Evaluate(totalText, peopleText, "") != Failure(InvalidTipPercent)
  {
    ParseDecimalShowNat(0);
    assert ShowNat(0) == "0";
    assert ReplaceFirst("0", ',', '.') == "0";
  }

  /** A comma and a point read the same as the decimal mark, so "120,50"
      and "120.50" give the same amount. */
  lemma CommaIsDecimalPoint(whole: string, fraction: string)
    requires AllRadixDigits(whole, 10) && AllRadixDigits(fraction, 10)
    requires whole != [] || fraction != []
    ensures ParseAmount(whole + "," + fraction) == ParseAmount(whole + "." + fraction)
                                                == Some(DecimalValue(whole, fraction))
  {
    assert ',' !in whole by {
      forall i | 0 <= i < |whole| ensures whole[i] != ',' { assert IsRadixDigit(whole[i], 10); }
    }
    assert ',' !in fraction by {
      forall i | 0 <= i < |fraction| ensures fraction[i] != ',' { assert IsRadixDigit(fraction[i], 10); }
    }
    var point := whole + "." + fraction;
    assert ',' !in point;
    ReplaceFirstAt(whole, fraction, ',', '.');
    assert point + [] == point;
    ParseDecimalPointed(whole, fraction, []);
  }

  /** A rendered whole number is read back as that amount (it has no comma to convert). */
  lemma ParseAmountShowNat(n: nat)
    ensures ParseAmount(ShowNat(n)) == Some(n as real)
  {
    var s := ShowNat(n);
    assert ',' !in s by {
      forall i | 0 <= i < |s| ensures s[i] != ',' { assert IsRadixDigit(s[i], 10); }
    }
    ParseDecimalShowNat(n);
  }

  /** Right after "Limpar" the total is empty, so "Calcular" raises the total alert. */
  lemma EmptyTotalRejected(peopleText: string, tipText: string)
    ensures Evaluate("", peopleText, tipText) == Failure(InvalidTotal)
  {
    assert ReplaceFirst("", ',', '.') == "";
  }

  /** The head-count field is not sanitised: " -3" gets past the white space
      and the sign and is read as -3, so the head-count alert is raised. */
  lemma NegativeHeadCountRejected(totalText: string, tipText: string, n: nat)
    requires TotalAccepted(totalText)
    ensures ParseInt(" -" + ShowNat(n)) == Some(-(n as int))
    ensures Evaluate(totalText, " -" + ShowNat(n), tipText) == Failure(InvalidPeopleCount)
  {
    ParseIntNegative(n);
  }

  /** Unsanitised, a charge of "-n" would be read as a negative percentage and
      refused; `DivApp.Valid` keeps every '-' out of the charge field. */
  lemma NegativeChargeRejected(totalText: string, peopleText: string, n: nat)
    requires n > 0 && TotalAccepted(totalText) && PeopleAccepted(peopleText)
    ensures ParseAmount("-" + ShowNat(n)) == Some(-(n as real))
    ensures Evaluate(totalText, peopleText, "-" + ShowNat(n)) == Failure(InvalidTipPercent)
  {
    var text := "-" + ShowNat(n);
    assert ',' !in text by {
      var digits := ShowNat(n);
      forall i | 0 <= i < |digits| ensures digits[i] != ',' { assert IsRadixDigit(digits[i], 10); }
      assert text == ['-'] + digits;
    }
    ParseDecimalNegative(n);
  }

  /** Typed with a comma or with a point, a decimal reaches `calculate` as the
      same amount: the sanitiser keeps either form, and reading the field
      turns the comma into a point. */
  lemma CommaSurvivesSanitiser(whole: string, fraction: string)
    requires AllRadixDigits(whole, 10) && AllRadixDigits(fraction, 10)
    requires whole != [] || fraction != []
    ensures ParseAmount(FormatCurrencyInput(whole + "," + fraction)) ==
              ParseAmount(FormatCurrencyInput(whole + "." + fraction)) ==
              Some(DecimalValue(whole, fraction))
  {
    assert AllDigits(whole) by {
      forall c | c in whole ensures IsDigit(c) {
        var i :| 0 <= i < |whole| && whole[i] == c;
        assert IsRadixDigit(whole[i], 10);
      }
    }
    assert AllDigits(fraction) by {
      forall c | c in fraction ensures IsDigit(c) {
        var i :| 0 <= i < |fraction| && fraction[i] == c;
        assert IsRadixDigit(fraction[i], 10);
      }
    }
    FormatKeepsCommaDecimal(whole, fraction);
    PointDecimalKept(whole, fraction);
    CommaIsDecimalPoint(whole, fraction);
  }

  lemma PointDecimalKept(whole: string, fraction: string)
    requires AllDigits(whole) && AllDigits(fraction)
    ensures FormatCurrencyInput(whole + "." + fraction) == whole + "." + fraction
  {
    var text := whole + "." + fraction;
    DigitsFree(whole);
    DigitsFree(fraction);
    assert AllAllowed(text) && ',' !in text;
    CountAppend(whole + ".", fraction, '.');
    CountAppend(whole, ".", '.');
    CountZero(whole, '.');
    CountZero(fraction, '.');
    assert Count(".", '.') == 1;
    FormatKeepsPlainDecimal(text);
  }
}
