/**
 * Prefix parsers standing for JavaScript's `parseFloat` and `parseInt`
 * (without a radix argument). Both read the longest numeric prefix and ignore
 * the rest; `None` stands for `NaN`.
 */
module NumberParsing {
  import opened Wrappers
  import opened Text

  /** The value of `c` as a digit in radices up to 36 ('0'-'9', then 'a'-'z'
      or 'A'-'Z' as 10-35); 36 for every other character. */
  function DigitValue(c: char): (v: nat)
    ensures v <= 36
    ensures v < 10 <==> IsDigit(c)
  {
    if '0' <= c <= '9' then c as int - '0' as int
    else if 'a' <= c <= 'z' then c as int - 'a' as int + 10
    else if 'A' <= c <= 'Z' then c as int - 'A' as int + 10
    else 36
  }

  predicate IsRadixDigit(c: char, radix: nat) { DigitValue(c) < radix }

  predicate AllRadixDigits(s: string, radix: nat)
  {
    forall i | 0 <= i < |s| :: IsRadixDigit(s[i], radix)
  }

  /** The longest prefix of `s` made of digits of the given radix. */
  function DigitRun(s: string, radix: nat): (run: string)
    ensures |run| <= |s| && run == s[..|run|]
    ensures AllRadixDigits(run, radix)
    ensures |run| < |s| ==> !IsRadixDigit(s[|run|], radix)
  {
    if s != [] && IsRadixDigit(s[0], radix) then
      var rest := DigitRun(s[1..], radix);
      assert [s[0]] + s[1..][..|rest|] == s[..|rest| + 1];
      [s[0]] + rest
    else []
  }

  /** The number a run of radix digits denotes, most significant digit first. */
  function RunValue(run: string, radix: nat): nat
    requires AllRadixDigits(run, radix)
  {
    if run == [] then 0
    else RunValue(run[..|run| - 1], radix) * radix + DigitValue(run[|run| - 1])
  }

  function Pow10(n: nat): (p: nat)
    ensures p >= 1
  {
    if n == 0 then 1 else 10 * Pow10(n - 1)
  }

  /** The unsigned part of `parseFloat` on text over the digits, ',' and '.':
      an optional digit run, then optionally a point and a second digit run;
      NaN unless one of the two runs is non-empty. A ',' ends the number like
      any other non-digit. */
  function ParseUnsignedDecimal(s: string): (r: Option<real>)
    ensures r.Some? ==> r.value >= 0.0
    ensures r.None? <==> !((s != [] && IsDigit(s[0])) || (|s| >= 2 && s[0] == '.' && IsDigit(s[1])))
  {
    var whole := DigitRun(s, 10);
    var afterWhole := s[|whole|..];
    var fraction := if afterWhole != [] && afterWhole[0] == '.' then DigitRun(afterWhole[1..], 10) else [];
    if whole == [] && fraction == [] then None
    else Some(DecimalValue(whole, fraction))
  }

  /** `parseFloat(s)`: leading white space skipped, an optional sign, then an
      unsigned decimal. Only a '-' in the text can make the number negative. */
  function ParseDecimal(s: string): (r: Option<real>)
    ensures r.Some? && r.value < 0.0 ==> '-' in s
  {
    var t := TrimStart(s);
    var signed := t != [] && (t[0] == '-' || t[0] == '+');
    var magnitude := ParseUnsignedDecimal(if signed then t[1..] else t);
    if magnitude.None? then None
    else if signed && t[0] == '-' then
      assert s[|s| - |t|] == '-';
      Some(-magnitude.value)
    else magnitude
  }

  /** Text that starts with a digit, a point or a comma (or is empty) has no
      white space or sign to skip and is read as an unsigned decimal. */
  lemma ParseDecimalUnsigned(s: string)
    requires s == [] || IsDigit(s[0]) || s[0] == '.' || s[0] == ','
    ensures ParseDecimal(s) == ParseUnsignedDecimal(s)
  {
    assert s == [] || !IsJsWhiteSpace(s[0]);
    assert TrimStart(s) == s;
    assert s == [] || (s[0] != '-' && s[0] != '+');
  }

  /** The number written `whole.fraction` in decimal. */
  function DecimalValue(whole: string, fraction: string): (v: real)
    requires AllRadixDigits(whole, 10) && AllRadixDigits(fraction, 10)
    ensures v >= 0.0
  {
    RunValue(whole, 10) as real + RunValue(fraction, 10) as real / Pow10(|fraction|) as real
  }

  /** The characters ECMAScript's `StrWhiteSpaceChar` accepts: white space
      (including every Unicode space separator) and line terminators. */
  predicate IsJsWhiteSpace(c: char)
  {
    c == '\t' || c == '\n' || c == '\U{B}' || c == '\U{C}' || c == '\r' || c == ' ' ||
    c == '\U{A0}' || c == '\U{1680}' || ('\U{2000}' <= c <= '\U{200A}') ||
    c == '\U{2028}' || c == '\U{2029}' || c == '\U{202F}' || c == '\U{205F}' ||
    c == '\U{3000}' || c == '\U{FEFF}'
  }

  /** `s` without its leading white space. */
  function TrimStart(s: string): (t: string)
    ensures |t| <= |s| && t == s[|s| - |t|..]
    ensures t != [] ==> !IsJsWhiteSpace(t[0])
    ensures (s == [] || !IsJsWhiteSpace(s[0])) ==> t == s
  {
    if s != [] && IsJsWhiteSpace(s[0]) then TrimStart(s[1..]) else s
  }

  /** Everything `TrimStart` removes is white space. */
  lemma {:induction false} TrimStartRemovesWhiteSpace(s: string)
    ensures forall i | 0 <= i < |s| - |TrimStart(s)| :: IsJsWhiteSpace(s[i])
  {
    if s != [] && IsJsWhiteSpace(s[0]) {
      TrimStartRemovesWhiteSpace(s[1..]);
      forall i | 0 <= i < |s| - |TrimStart(s)| ensures IsJsWhiteSpace(s[i]) {
        if i > 0 { assert s[i] == s[1..][i - 1]; }
      }
    }
  }

  /** `parseInt(s)`: leading white space skipped, an optional sign, then an
      unsigned number; NaN when there are no digits. */
  function ParseInt(s: string): (r: Option<int>)
    ensures s == [] ==> r.None?
    ensures r.Some? && r.value < 0 ==> '-' in s
  {
    var t := TrimStart(s);
    if t != [] && (t[0] == '-' || t[0] == '+') then
      match ParseUnsigned(t[1..])
      case None => None
      case Some(magnitude) =>
        assert t[0] == s[|s| - |t|];
        Some(if t[0] == '-' then -(magnitude as int) else magnitude)
    else
      match ParseUnsigned(t)
      case None => None
      case Some(magnitude) => Some(magnitude)
  }

  /** The unsigned part of `parseInt`: a "0x" or "0X" prefix switches to
      radix 16, then the longest run of digits of the radix is read; NaN when
      that run is empty. */
  function ParseUnsigned(u: string): (r: Option<nat>)
    ensures r.Some? ==> u != [] && IsDigit(u[0])
  {
    var hex := |u| >= 2 && u[0] == '0' && (u[1] == 'x' || u[1] == 'X');
    var radix := if hex then 16 else 10;
    var run := DigitRun(if hex then u[2..] else u, radix);
    if run == [] then None else Some(RunValue(run, radix))
  }

  // ---------------------------------------------------------------------
  // Decimal rendering, the parsers' partner

  /** The decimal digits of `n`, without leading zeros. */
  function ShowNat(n: nat): (s: string)
    ensures s != [] && AllRadixDigits(s, 10)
  {
    if n < 10 then [DigitChar(n)] else ShowNat(n / 10) + [DigitChar(n % 10)]
  }

  function DigitChar(d: nat): (c: char)
    requires d < 10
    ensures IsDigit(c) && DigitValue(c) == d
  {
    ('0' as int + d) as char
  }

  /** Reading back the rendering of `n` gives `n`. */
  lemma {:induction false} RunValueShowNat(n: nat)
    ensures RunValue(ShowNat(n), 10) == n
  {
    if n >= 10 {
      var s := ShowNat(n);
      RunValueShowNat(n / 10);
      assert s[..|s| - 1] == ShowNat(n / 10);
    }
  }

  /** A run of decimal digits is read whole when nothing follows it. */
  lemma {:induction false} DigitRunAll(s: string, radix: nat)
    requires AllRadixDigits(s, radix)
    ensures DigitRun(s, radix) == s
  {
    if s != [] {
      DigitRunAll(s[1..], radix);
    }
  }

  /** The unsigned part of `parseInt` reads a plain run of decimal digits as
      the number it denotes. */
  lemma ParseUnsignedDigits(s: string)
    requires s != [] && AllRadixDigits(s, 10)
    ensures ParseUnsigned(s) == Some(RunValue(s, 10))
  {
    if |s| >= 2 {
      assert IsRadixDigit(s[1], 10);
      assert IsDigit(s[1]);
    }
    DigitRunAll(s, 10);
  }

  /** `parseInt` reads a plain run of decimal digits as the number it denotes. */
  lemma ParseIntDigits(s: string)
    requires s != [] && AllRadixDigits(s, 10)
    ensures ParseInt(s) == Some(RunValue(s, 10))
  {
    assert IsRadixDigit(s[0], 10);
    assert IsDigit(s[0]);
    assert !IsJsWhiteSpace(s[0]);
    assert TrimStart(s) == s;
    ParseUnsignedDigits(s);
  }

  /** `parseInt` reads the decimal rendering of `n` back as `n`. */
  lemma ParseIntShowNat(n: nat)
    ensures ParseInt(ShowNat(n)) == Some(n)
  {
    ParseIntDigits(ShowNat(n));
    RunValueShowNat(n);
  }

  /** `parseFloat` reads a plain run of decimal digits as the number it denotes. */
  lemma ParseDecimalDigits(s: string)
    requires s != [] && AllRadixDigits(s, 10)
    ensures ParseDecimal(s) == Some(RunValue(s, 10) as real)
  {
    assert IsRadixDigit(s[0], 10);
    ParseDecimalUnsigned(s);
    UnsignedDigits(s);
  }

  lemma UnsignedDigits(s: string)
    requires s != [] && AllRadixDigits(s, 10)
    ensures ParseUnsignedDecimal(s) == Some(RunValue(s, 10) as real)
  {
    DigitRunAll(s, 10);
    var afterWhole := s[|s|..];
    assert afterWhole == [];
    assert DecimalValue(s, []) == RunValue(s, 10) as real by {
      assert RunValue([], 10) == 0 && Pow10(0) == 1;
    }
  }

  /** `parseFloat` reads the decimal rendering of `n` back as `n`. */
  lemma ParseDecimalShowNat(n: nat)
    ensures ParseDecimal(ShowNat(n)) == Some(n as real)
  {
    ParseDecimalDigits(ShowNat(n));
    RunValueShowNat(n);
  }

  /** Both parsers stop at the first character that cannot continue the
      number: whatever follows a digit run (and a ',' in particular) is ignored. */
  lemma {:induction false} DigitRunStops(digits: string, rest: string, radix: nat)
    requires AllRadixDigits(digits, radix)
    requires rest == [] || !IsRadixDigit(rest[0], radix)
    ensures DigitRun(digits + rest, radix) == digits
  {
    if digits != [] {
      assert (digits + rest)[1..] == digits[1..] + rest;
      DigitRunStops(digits[1..], rest, radix);
      assert [digits[0]] + digits[1..] == digits;
    } else {
      assert digits + rest == rest;
    }
  }

  /** A digit string read by `parseFloat` with a point in the middle: the
      whole part plus the fraction scaled by its number of digits. */
  lemma ParseDecimalPointed(whole: string, fraction: string, rest: string)
    requires AllRadixDigits(whole, 10) && AllRadixDigits(fraction, 10)
    requires whole != [] || fraction != []
    requires rest == [] || !IsDigit(rest[0])
    ensures ParseDecimal(whole + "." + fraction + rest) == Some(DecimalValue(whole, fraction))
  {
    var s := whole + "." + fraction + rest;
    assert s[0] == if whole != [] then whole[0] else '.';
    assert whole != [] ==> IsRadixDigit(whole[0], 10);
    ParseDecimalUnsigned(s);
    UnsignedPointed(whole, fraction, rest);
  }

  lemma UnsignedPointed(whole: string, fraction: string, rest: string)
    requires AllRadixDigits(whole, 10) && AllRadixDigits(fraction, 10)
    requires whole != [] || fraction != []
    requires rest == [] || !IsDigit(rest[0])
    ensures ParseUnsignedDecimal(whole + "." + fraction + rest) == Some(DecimalValue(whole, fraction))
  {
    var s := whole + "." + fraction + rest;
    var tail := "." + fraction + rest;
    assert s == whole + tail;
    DigitRunStops(whole, tail, 10);
    assert DigitRun(s, 10) == whole;
    assert s[|whole|..] == tail;
    assert tail[0] == '.' && tail[1..] == fraction + rest;
    DigitRunStops(fraction, rest, 10);
    assert DigitRun(tail[1..], 10) == fraction;
  }

  /** `parseInt` skips leading white space and honours a minus sign: a head
      count typed as " -n" is read as -n. */
  lemma ParseIntNegative(n: nat)
    ensures ParseInt(" -" + ShowNat(n)) == Some(-(n as int))
  {
    ParseUnsignedShowNat(n);
    ParseIntSpaceMinus(ShowNat(n), n);
  }

  lemma ParseUnsignedShowNat(n: nat)
    ensures ParseUnsigned(ShowNat(n)) == Some(n)
  {
    ParseUnsignedDigits(ShowNat(n));
    RunValueShowNat(n);
  }

  lemma ParseIntSpaceMinus(u: string, magnitude: nat)
    requires ParseUnsigned(u) == Some(magnitude)
    ensures ParseInt(" -" + u) == Some(-(magnitude as int))
  {
    var t := "-" + u;
    assert t[0] == '-' && t[1..] == u;
    assert " -" + u == [' '] + t;
    TrimStartSpace(t);
  }

  /** One leading space is skipped. */
  lemma TrimStartSpace(t: string)
    requires t != [] && !IsJsWhiteSpace(t[0])
    ensures TrimStart([' '] + t) == t
  {
    assert ([' '] + t)[1..] == t;
  }

  /** A "0x" prefix switches `parseInt` to hexadecimal. */
  lemma ParseIntHex(digits: string)
    requires digits != [] && AllRadixDigits(digits, 16)
    ensures ParseInt("0x" + digits) == Some(RunValue(digits, 16))
  {
    var s := "0x" + digits;
    assert TrimStart(s) == s;
    assert s[2..] == digits;
    DigitRunAll(digits, 16);
  }

  /** `parseFloat` honours a leading minus sign: "-n" is read as -n. */
  lemma ParseDecimalNegative(n: nat)
    ensures ParseDecimal("-" + ShowNat(n)) == Some(-(n as real))
  {
    UnsignedShowNat(n);
    ParseDecimalMinus(ShowNat(n), n as real);
  }

  lemma UnsignedShowNat(n: nat)
    ensures ParseUnsignedDecimal(ShowNat(n)) == Some(n as real)
  {
    UnsignedDigits(ShowNat(n));
    RunValueShowNat(n);
  }

  lemma ParseDecimalMinus(u: string, magnitude: real)
    requires ParseUnsignedDecimal(u) == Some(magnitude)
    ensures ParseDecimal("-" + u) == Some(-magnitude)
  {
    var s := "-" + u;
    assert s[0] == '-' && s[1..] == u;
    assert TrimStart(s) == s;
  }
}
