/**
  The concrete behaviour the converter's tests describe: known encodings in
  both notations, the zero cases, J-normalisation, refused letters,
  refused repetitions, the two spellings of 18, and a total out of range.
 */
module KnownValues {
  import opened Tables
  import opened Numerals
  import opened Encoder
  import opened Decoder
  import opened Digits
  import opened Reading
  import opened Repetition
  import opened ReadBack
  import opened Additive

  /** The integer constructor refuses -100 and 5000 and keeps 0 and 4000. */
  lemma ConstructorBounds()
    ensures FromInt(-100) == Throws(OutOfRange) && FromInt(5000) == Throws(OutOfRange)
    ensures FromInt(0) == Ok(0) && FromInt(4000) == Ok(4000)
  {
  }

  /** Subtractive notation writes the number's place-value digits. */
  lemma WrittenAs(num: Numeral, a: nat, b: nat, c: nat, d: nat)
    requires num > 0 && b < 10 && c < 10 && d < 10
    requires num as int == 1000 * a + 100 * b + 10 * c + d
    ensures ToString(num, Subtractive) == PlaceValue(a, b, c, d)
  {
    ToStringIsStandard(num);
    RomanDigitsOf(a, b, c, d);
  }

  /** 1110 is MCX in subtractive notation. */
  lemma Writes1110()
    ensures ToString(1110, Subtractive) == "MCX"
  {
    WrittenAs(1110, 1, 1, 1, 0);
    assert Repeat('M', 1) == "M" && RomanDigit(1, 'C', 'D', 'M') == "C";
    assert RomanDigit(1, 'X', 'L', 'C') == "X" && RomanDigit(0, 'I', 'V', 'X') == [];
  }

  /** The digits of 1993 in place-value notation. */
  lemma PlaceValue1993()
    ensures PlaceValue(1, 9, 9, 3) == "MCMXCIII"
  {
    var m, h, t, u := Repeat('M', 1), RomanDigit(9, 'C', 'D', 'M'), RomanDigit(9, 'X', 'L', 'C'), RomanDigit(3, 'I', 'V', 'X');
    assert m == "M" && h == "CM" && t == "XC";
    assert u == "III" by {
      assert Repeat('I', 3) == "III";
    }
    assert "XC" + "III" == "XCIII";
    assert "CM" + "XCIII" == "CMXCIII";
    assert "M" + "CMXCIII" == "MCMXCIII";
  }

  /** 1993 is MCMXCIII in subtractive notation. */
  lemma Writes1993()
    ensures ToString(1993, Subtractive) == "MCMXCIII"
  {
    WrittenAs(1993, 1, 9, 9, 3);
    PlaceValue1993();
  }

  /** 8 is VIII in subtractive notation. */
  lemma Writes8()
    ensures ToString(8, Subtractive) == "VIII"
  {
    WrittenAs(8, 0, 0, 0, 8);
    assert Repeat('M', 0) == [] && RomanDigit(0, 'C', 'D', 'M') == [] && RomanDigit(0, 'X', 'L', 'C') == [];
    assert RomanDigit(8, 'I', 'V', 'X') == "VIII" by {
      assert Repeat('I', 3) == "III";
    }
  }

  /** Additive notation writes 4 as IIII: every larger letter is passed over
      and I is repeated. */
  lemma AdditiveFour()
    ensures ToString(4, Additive) == "IIII"
  {
    AdditiveOnes(4);
    FourOnesSpelled();
  }

  /** Nine in additive notation is VIIII: a V and four I's, not IX. */
  lemma AdditiveNine()
    ensures ToString(9, Additive) == "VIIII"
  {
    ToStringIsAdditive(9);
    NineDigits();
  }

  /** Nine by division: no M, D, C, L or X, one V and four I's. */
  lemma NineDigits()
    ensures AdditiveDigits(9) == "VIIII"
  {
    AdditiveUnits(9);
    FourOnesSpelled();
    assert Repeat('V', 1) == "V";
  }

  /** Four I's spell IIII. */
  lemma FourOnesSpelled()
    ensures Repeat('I', 4) == "IIII"
  {
  }

  /** Additive notation writes 1 to 4 as that many I's. */
  lemma AdditiveOnes(k: Numeral)
    requires 0 < k < 5
    ensures ToString(k, Additive) == Repeat('I', k as nat)
  {
    AdditiveListWellFormed();
    WrittenAsSpelled(k, Additive);
    AdditiveValues();
    EncodeOnes(Values, AdditiveNotation, 6, k as nat);
  }

  /** A non-zero numeral is written as the spelling of the greedy walk over
      the notation's list. */
  lemma WrittenAsSpelled(num: Numeral, notation: Notation)
    requires num > 0
    ensures EncodableList(Values, NotationList(notation))
    ensures ToString(num, notation) == Spell(NotationList(notation), EncodeFrom(Values, NotationList(notation), 0, num as nat))
  {
    NotationListsWellFormed(notation);
  }

  /** A number below every symbol but the final I is written as that many I's. */
  lemma EncodeOnes(vals: map<string, nat>, tab: seq<string>, q: nat, k: nat)
    requires EncodableList(vals, tab) && q == |tab| - 1 && tab[q] == "I"
    requires forall j :: 0 <= j < q ==> k < vals[tab[j]]
    ensures Spell(tab, EncodeFrom(vals, tab, 0, k)) == Repeat('I', k)
  {
    EncodeSkipTo(vals, tab, 0, q, k);
    EncodeRepeat(vals, tab, q, k, 0);
    assert k * vals[tab[q]] + 0 == k;
    assert seq(k, _ => q) + EncodeFrom(vals, tab, q + 1, 0) == seq(k, _ => q);
    SpellRepeat(tab, q, 'I', k);
  }

  /** MCX, MCMXCIII and VIII read back as 1110, 1993 and 8. */
  lemma ReadsKnownValues()
    ensures Parse("MCX") == Ok(Some(1110))
    ensures Parse("MCMXCIII") == Ok(Some(1993))
    ensures Parse("VIII") == Ok(Some(8))
  {
    Writes1110();
    RoundTrip(1110);
    Writes1993();
    RoundTrip(1993);
    Writes8();
    RoundTrip(8);
  }

  /** The empty text, the missing text and "nulla" in any case read as zero. */
  lemma ZeroTexts()
    ensures Parse("") == Ok(Some(0))
    ensures ParseNullable(None) == Ok(Some(0))
    ensures Parse("NULLA") == Ok(Some(0)) && Parse("nulla") == Ok(Some(0)) && Parse("NuLlA") == Ok(Some(0))
  {
    assert Upper("nulla") == Nulla;
    assert Upper("NuLlA") == Nulla;
    assert Upper("NULLA") == Nulla;
  }

  /** CMJ normalises to CMI. */
  lemma NormalizeCMJ()
    ensures Normalize("CMJ") == "CMI"
  {
    var s := Normalize("CMJ");
    assert s[0] == 'C' && s[1] == 'M' && s[2] == 'I';
  }

  /** CMI is 901 in place-value notation. */
  lemma CheckAndReadCMI()
    ensures CheckAndRead("CMI") == Ok(Some(901))
    ensures !ContainsNonRoman("CMI")
  {
    ClassicalTextIsNormal("CMI");
    assert PlaceValue(0, 9, 0, 1) == "CMI" by {
      assert Repeat('M', 0) == [] && RomanDigit(9, 'C', 'D', 'M') == "CM";
      assert RomanDigit(0, 'X', 'L', 'C') == [] && RomanDigit(1, 'I', 'V', 'X') == "I";
    }
    CheckAndReadPlaceValue(0, 9, 0, 1);
  }

  /** A final J reads as I: CMJ is CMI, 901. */
  lemma TrailingJ()
    ensures Parse("CMJ") == Ok(Some(901))
  {
    NormalizeCMJ();
    CheckAndReadCMI();
    SymbolLengths();
    assert Upper("CMJ") != Nulla by {
      assert |Upper("CMJ")| == 3;
    }
    ParseAsRead("CMJ", "CMI");
  }

  /** A text that is not a symbol, not zero, and holds no refused letter
      once normalised is decoded from its normal form. */
  lemma ParseAsRead(str: string, s: string)
    requires str != [] && Upper(str) != Nulla && str !in Values
    requires Normalize(str) == s && !ContainsNonRoman(s)
    ensures Parse(str) == CheckAndRead(s)
  {
  }

  /** NCJS holds refused letters. */
  lemma RefusedLetters()
    ensures Parse("NCJS") == Throws(NonRomanCharacter)
  {
    var s := Normalize("NCJS");
    assert s[0] == 'N';
    assert Upper("NCJS") != Nulla by {
      assert |Upper("NCJS")| == 4;
    }
  }

  /** A classical text that is not a known symbol and breaks the rule in
      some window is refused for repetition. */
  lemma RefusedForRepeats(s: string)
    requires s != [] && s !in Values && BadFrom(s, 0)
    requires forall i :: 0 <= i < |s| ==> s[i] in RomanLetters
    ensures Parse(s) == Throws(TooManyRepeats)
  {
    ClassicalTextIsNormal(s);
    RepeatRule(s);
  }

  /** A classical text that is not a known symbol and breaks the rule in
      its first window is refused for repetition. */
  lemma RefusedFromStart(s: string)
    requires s != [] && s !in Values && BadAt(s, 0)
    requires forall i :: 0 <= i < |s| ==> s[i] in RomanLetters
    ensures Parse(s) == Throws(TooManyRepeats)
  {
    assert BadFrom(s, 0);
    RefusedForRepeats(s);
  }

  /** IIII, CCCC and MMMM repeat a letter four times, and DDD doubles a
      letter that may never be repeated: all four are refused. */
  lemma RefusedRepeats(s: string)
    requires s in ["IIII", "DDD", "CCCC", "MMMM"]
    ensures Parse(s) == Throws(TooManyRepeats)
  {
    assert BadAt(s, 0);
    RefusedFromStart(s);
  }

  /** IV is read as the one option IV: a scan that reads I and leaves V
      over would pass IV by, though IV comes before I in the option list
      and starts the text. */
  lemma IVNotReadAsI()
    ensures !ScanOf(NumeralOptions, "IV", 0, Scan([19], "V"))
  {
    assert NumeralOptions[18] == "IV";
  }

  /** XIIX and IIXX are known symbols and read as 18 at once. */
  lemma Eighteen()
    ensures Parse("XIIX") == Ok(Some(18)) && Parse("IIXX") == Ok(Some(18))
  {
    ClassicalTextIsNormal("XIIX");
    ClassicalTextIsNormal("IIXX");
  }

  /** The loop reads MMMCMD as M, M, M, CM, D. */
  lemma ReadMMMCMD()
    ensures ReadFrom("MMMCMD", 0) == Scan([0, 0, 0, 1, 2], [])
  {
    ReadThousandsThenCMD();
    SpellMMMCMD();
    assert seq(3, _ => 0) + ([1] + [2]) == [0, 0, 0, 1, 2];
  }

  /** Three M's, then the options CM and D, are read as those options. */
  lemma ReadThousandsThenCMD()
    ensures ReadFrom(Repeat('M', 3) + (NumeralOptions[1] + NumeralOptions[2]), 0)
         == Scan(seq(3, _ => 0) + ([1] + [2]), [])
  {
    var rest := NumeralOptions[1] + NumeralOptions[2];
    ReadRepeat(0, 'M', 3, rest);
    DiffersAt(NumeralOptions[0], rest, 0);
    ReadSkip(rest, 0);
    ReadTakeFront(1, NumeralOptions[2]);
    ReadLast(2);
  }

  /** Three M's, CM and D spell MMMCMD. */
  lemma SpellMMMCMD()
    ensures Repeat('M', 3) + (NumeralOptions[1] + NumeralOptions[2]) == "MMMCMD"
  {
  }

  /** No window of MMMCMD breaks the repetition rule. */
  lemma MMMCMDRepeatsNothing()
    ensures !HasRepeatViolation("MMMCMD")
  {
    var s := "MMMCMD";
    RepeatRule(s);
    forall t | 0 <= t < |s|
      ensures !BadAt(s, t)
    {
    }
  }

  /** M, M, M, CM, D are worth 4400 together. */
  lemma WorthMMMCMD()
    ensures ValuedPicks(Values, NumeralOptions, [0, 0, 0, 1, 2])
    ensures Worth(Values, NumeralOptions, [0, 0, 0, 1, 2]) == 4400
  {
    OptionPlaces();
    WorthThousandsNineFive(Values, NumeralOptions);
  }

  /** Three thousands, nine hundred and five hundred make 4400 in any table
      laid out like the option list. */
  lemma WorthThousandsNineFive(vals: map<string, nat>, tab: seq<string>)
    requires 0 < |tab| && tab[0] in vals && vals[tab[0]] == 1000
    requires PlaceOptions(vals, tab, 1, 2, 4, 7, 100)
    ensures ValuedPicks(vals, tab, [0, 0, 0, 1, 2])
    ensures Worth(vals, tab, [0, 0, 0, 1, 2]) == 4400
  {
    assert [0, 0, 0, 1, 2][1..] == [0, 0, 1, 2];
    assert [0, 0, 1, 2][1..] == [0, 1, 2];
    assert [0, 1, 2][1..] == [1, 2];
    assert [1, 2][1..] == [2];
    assert Worth(vals, tab, [2]) == 500;
    assert Worth(vals, tab, [1, 2]) == 1400;
    assert Worth(vals, tab, [0, 1, 2]) == 2400;
    assert Worth(vals, tab, [0, 0, 1, 2]) == 3400;
  }

  /** After the checks, MMMCMD adds up to 4400, which the integer
      constructor refuses. */
  lemma CheckAndReadMMMCMD()
    ensures CheckAndRead("MMMCMD") == Throws(OutOfRange)
  {
    MMMCMDRepeatsNothing();
    ReadMMMCMD();
    WorthMMMCMD();
  }

  /** MMMCMD is refused as out of range. */
  lemma TotalOutOfRange()
    ensures Parse("MMMCMD") == Throws(OutOfRange)
  {
    ParseClassical("MMMCMD");
    CheckAndReadMMMCMD();
  }

  /** A non-empty text of classical letters is decoded by the repetition
      check and the reading loop alone. */
  lemma ParseClassical(s: string)
    requires s != [] && forall i :: 0 <= i < |s| ==> s[i] in RomanLetters
    ensures Parse(s) == CheckAndRead(s)
  {
    ClassicalTextIsNormal(s);
    FastPathIsShortcut(s);
  }
}
