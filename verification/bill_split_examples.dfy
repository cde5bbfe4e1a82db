/**
 * Worked examples: the calculator on concrete field texts, including the
 * boundary cases of each check.
 */
module BillSplitExamples {
  import opened Wrappers
  import opened Text
  import opened NumberParsing
  import opened CurrencyInput
  import opened BillSplit

  lemma DecimalExample()
    ensures DecimalValue("120", "50") == 120.5
  {
    assert RunValue("120", 10) == 120 by { RunValueShowNat(120); assert ShowNat(120) == "120"; }
    assert RunValue("50", 10) == 50 by { RunValueShowNat(50); assert ShowNat(50) == "50"; }
    assert Pow10(2) == 100;
  }

  /** "120,50" is read as 120.5. */
  lemma CommaAmountExample()
    ensures ParseAmount("120,50") == Some(120.5)
  {
    assert AllRadixDigits("120", 10) && AllRadixDigits("50", 10);
    calc {
      ParseAmount("120,50");
      { assert "120,50" == "120" + "," + "50"; }
      ParseAmount("120" + "," + "50");
      { CommaIsDecimalPoint("120", "50"); }
      Some(DecimalValue("120", "50"));
      { DecimalExample(); }
      Some(120.5);
    }
  }

  /** Shorthand for the examples below: the rendering `s` of `n` is read back as `n`. */
  lemma AmountOf(n: nat, s: string)
    requires ShowNat(n) == s
    ensures ParseAmount(s) == Some(n as real)
  {
    ParseAmountShowNat(n);
  }

  lemma HeadCountOf(n: nat, s: string)
    requires ShowNat(n) == s
    ensures ParseInt(s) == Some(n)
  {
    ParseIntShowNat(n);
  }

  lemma HeadCountExamples()
    ensures ParseInt("4") == Some(4) && ParseInt("5") == Some(5)
  {
    HeadCountOf(4, "4");
    HeadCountOf(5, "5");
  }

  lemma AmountExamples()
    ensures ParseAmount("10") == Some(10.0) && ParseAmount("100") == Some(100.0)
  {
    AmountOf(10, "10");
    AmountOf(100, "100");
  }

  /** "120,50" shared by "4" with a "10" percent charge is 33.1375 each. */
  lemma ScenarioCommaTotal()
    ensures Evaluate("120,50", "4", "10") == Success(33.1375)
  {
    CommaAmountExample();
    HeadCountExamples();
    AmountExamples();
    assert TipPercent("10") == 10.0;
    SuccessClosedForm("120,50", "4", "10");
    calc {
      Evaluate("120,50", "4", "10");
      Success(Share(ParseAmount("120,50").value, ParseInt("4").value, TipPercent("10")));
      Success(Share(120.5, 4, 10.0));
      { assert Share(120.5, 4, 10.0) == 33.1375; }
      Success(33.1375);
    }
  }

  /** "100" shared by "5" with no charge is 20 each. */
  lemma ScenarioNoCharge()
    ensures Evaluate("100", "5", "") == Success(20.0)
  {
    HeadCountExamples();
    AmountExamples();
    SuccessClosedForm("100", "5", "");
    calc {
      Evaluate("100", "5", "");
      Success(Share(ParseAmount("100").value, ParseInt("5").value, TipPercent("")));
      Success(Share(100.0, 5, 0.0));
      { assert Share(100.0, 5, 0.0) == 20.0; }
      Success(20.0);
    }
  }

  /** A zero total raises the total alert. */
  lemma ScenarioZeroTotal()
    ensures Evaluate("0", "2", "") == Failure(InvalidTotal)
  {
    AmountOf(0, "0");
  }

  /** Zero people raises the head-count alert. */
  lemma ScenarioZeroPeople()
    ensures Evaluate("50", "0", "") == Failure(InvalidPeopleCount)
  {
    AmountOf(50, "50");
    HeadCountOf(0, "0");
  }

  lemma ThousandsDecimal()
    ensures DecimalValue("1", "23456") == 1.23456
  {
    assert RunValue("1", 10) == 1 by { RunValueShowNat(1); assert ShowNat(1) == "1"; }
    assert RunValue("23456", 10) == 23456 by { RunValueShowNat(23456); assert ShowNat(23456) == "23456"; }
    assert Pow10(5) == 100000;
  }

  /** "1.23456" reads as 1.23456. */
  lemma ThousandsAmount()
    ensures ParseAmount("1.23456") == Some(1.23456)
  {
    assert AllRadixDigits("1", 10) && AllRadixDigits("23456", 10);
    calc {
      ParseAmount("1.23456");
      { assert "1.23456" == "1" + "." + "23456"; }
      ParseAmount("1" + "." + "23456");
      { CommaIsDecimalPoint("1", "23456"); }
      Some(DecimalValue("1", "23456"));
      { ThousandsDecimal(); }
      Some(1.23456);
    }
  }

  /** "1.234.56" typed in the total field is sanitised to "1.23456", which
      then reads as the number 1.23456. */
  lemma ThousandsExampleParses()
    ensures ParseAmount(FormatCurrencyInput("1.234.56")) == Some(1.23456)
  {
    FormatExampleThousands();
    ThousandsAmount();
  }
}
