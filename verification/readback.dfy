/**
  Decoding what the encoder writes: every number from 1 to 3999 written in
  subtractive notation reads back as itself, and 4000, written "MMMM", is
  refused for repeating M four times.
 */
module ReadBack {
  import opened Tables
  import opened Numerals
  import opened Encoder
  import opened Decoder
  import opened Digits
  import opened Reading
  import opened Repetition

  /** Up to three copies of a letter that may be repeated break no window. */
  lemma RepeatHasNoBadWindow(c: char, k: nat)
    requires k <= 3 && !NeverRepeated(c)
    ensures !BadFrom(Repeat(c, k), 0)
  {
  }

  /** A digit of a place whose unit letter may be repeated breaks no window. */
  lemma DigitHasNoBadWindow(d: nat, one: char, five: char, ten: char)
    requires d < 10 && !NeverRepeated(one) && one != five && one != ten
    ensures !BadFrom(RomanDigit(d, one, five, ten), 0)
  {
    if 5 <= d < 9 {
      RepeatHasNoBadWindow(one, d - 5);
      NoBadWindowJoined([five], Repeat(one, d - 5));
    } else if d < 4 {
      RepeatHasNoBadWindow(one, d);
    }
  }

  /** A digit is written with the three letters of its place only. */
  lemma DigitLetters(d: nat, one: char, five: char, ten: char)
    requires d < 10
    ensures var r := RomanDigit(d, one, five, ten);
            forall i :: 0 <= i < |r| ==> r[i] == one || r[i] == five || r[i] == ten
  {
  }

  /** A place-value numeral with at most three thousands breaks no window. */
  lemma PlaceValueHasNoBadWindow(a: nat, b: nat, c: nat, d: nat)
    requires a <= 3 && b < 10 && c < 10 && d < 10
    ensures !BadFrom(PlaceValue(a, b, c, d), 0)
  {
    var h, t, u := RomanDigit(b, 'C', 'D', 'M'), RomanDigit(c, 'X', 'L', 'C'), RomanDigit(d, 'I', 'V', 'X');
    DigitHasNoBadWindow(b, 'C', 'D', 'M');
    DigitHasNoBadWindow(c, 'X', 'L', 'C');
    DigitHasNoBadWindow(d, 'I', 'V', 'X');
    DigitLetters(b, 'C', 'D', 'M');
    DigitLetters(c, 'X', 'L', 'C');
    DigitLetters(d, 'I', 'V', 'X');
    LowerDigitsAreTails(b, c, d);
    NoBadWindowJoined(t, u);
    NoBadWindowJoined(h, t + u);
    RepeatHasNoBadWindow('M', a);
    NoBadWindowJoined(Repeat('M', a), h + (t + u));
  }

  /** A text of classical letters is left as it is by normalisation, holds
      no refused letter, and is not "nulla". */
  lemma ClassicalTextIsNormal(s: string)
    requires forall i :: 0 <= i < |s| ==> s[i] in RomanLetters
    ensures Upper(s) == s && Normalize(s) == s
    ensures !ContainsNonRoman(s)
    ensures s != [] ==> Upper(s) != Nulla
  {
    forall i | 0 <= i < |s|
      ensures Upper(s)[i] == s[i] && Normalize(s)[i] == s[i] && s[i] !in NonRomanNumerals
    {
      ClassicalLetter(s[i]);
    }
    assert Upper(s) == s;
    if s != [] {
      ClassicalLetter(s[0]);
      assert Nulla[0] == 'N';
    }
  }

  /** A classical letter is upper-case, is left alone by normalisation and
      is not refused. */
  lemma ClassicalLetter(c: char)
    requires c in RomanLetters
    ensures !IsLowerAscii(c) && c != 'U' && c != 'J' && c != 'N'
    ensures c !in NonRomanNumerals
  {
    RomanLettersNotRefused();
  }

  /** After the fast path, a place-value numeral with at most three
      thousands passes the repetition check and is read as its number. */
  lemma CheckAndReadPlaceValue(a: nat, b: nat, c: nat, d: nat)
    requires a <= 3 && b < 10 && c < 10 && d < 10
    ensures 1000 * a + 100 * b + 10 * c + d <= MaxNumber
    ensures CheckAndRead(PlaceValue(a, b, c, d)) == Ok(Some(1000 * a + 100 * b + 10 * c + d))
  {
    var s := PlaceValue(a, b, c, d);
    PlaceValueHasNoBadWindow(a, b, c, d);
    RepeatRule(s);
    ReadPlaceValue(a, b, c, d);
    WorthPlaceValue(a, b, c, d);
  }

  /** "XIIX" is read by its own option after every earlier one is passed
      over, whatever follows it. */
  lemma ReadXIIX(r: string)
    ensures ReadFrom("XIIX" + r, 0) == Prefixed([13], ReadFrom(r, 14))
  {
    var s := "XIIX" + r;
    forall j | 0 <= j < 13
      ensures !(NumeralOptions[j] <= s)
    {
      DiffersAt(NumeralOptions[j], s, if j == 8 || j == 11 then 1 else 0);
    }
    ReadSkipTo(s, 0, 13);
    ReadTake(s, 13);
    assert s[4..] == r;
  }

  /** "IIXX" is read by its own option after every earlier one is passed
      over, whatever follows it. */
  lemma ReadIIXX(r: string)
    ensures ReadFrom("IIXX" + r, 0) == Prefixed([12], ReadFrom(r, 13))
  {
    var s := "IIXX" + r;
    forall j | 0 <= j < 12
      ensures !(NumeralOptions[j] <= s)
    {
      DiffersAt(NumeralOptions[j], s, 0);
    }
    ReadSkipTo(s, 0, 12);
    ReadTake(s, 12);
    assert s[4..] == r;
  }

  /** The two spellings of 18 pass the repetition check and are read as 18. */
  lemma CheckAndReadXIIX()
    ensures CheckAndRead("XIIX") == Ok(Some(18))
  {
    var s := "XIIX";
    assert forall t :: 0 <= t < |s| ==> !BadAt(s, t);
    ReadXIIX([]);
    assert s + [] == s;
    ReadEmpty(14);
    OtherValues();
    assert NumeralOptions[13] == "XIIX";
    WorthSingle(Values, NumeralOptions, 13);
    CheckAndReadWhole(s, [13], 18);
  }

  lemma CheckAndReadIIXX()
    ensures CheckAndRead("IIXX") == Ok(Some(18))
  {
    var s := "IIXX";
    assert forall t :: 0 <= t < |s| ==> !BadAt(s, t);
    ReadIIXX([]);
    assert s + [] == s;
    ReadEmpty(13);
    OtherValues();
    assert NumeralOptions[12] == "IIXX";
    WorthSingle(Values, NumeralOptions, 12);
    CheckAndReadWhole(s, [12], 18);
  }

  /** A text that breaks no window and is read to the end is decoded as
      the worth of what was read. */
  lemma CheckAndReadWhole(s: string, picks: seq<nat>, n: Numeral)
    requires !BadFrom(s, 0) && Read(s) == Scan(picks, [])
    requires Worth(Values, NumeralOptions, picks) == n as nat
    ensures CheckAndRead(s) == Ok(Some(n))
  {
    RepeatRule(s);
  }

  /** A numeral with a single non-zero place is that place's digit. */
  lemma SinglePlace(b: nat, c: nat, d: nat)
    requires b < 10 && c < 10 && d < 10
    ensures PlaceValue(0, b, 0, 0) == RomanDigit(b, 'C', 'D', 'M')
    ensures PlaceValue(0, 0, c, 0) == RomanDigit(c, 'X', 'L', 'C')
    ensures PlaceValue(0, 0, 0, d) == RomanDigit(d, 'I', 'V', 'X')
  {
    assert Repeat('M', 0) == [] && RomanDigit(0, 'C', 'D', 'M') == [];
    assert RomanDigit(0, 'X', 'L', 'C') == [] && RomanDigit(0, 'I', 'V', 'X') == [];
  }

  /** Every known symbol is medieval, one of the two spellings of 18, or the
      classical symbol of one digit of one place. */
  lemma KnownSymbolKinds(str: string)
    requires str in Values
    ensures || str in ["O", "F", "P", "G", "Q"]
            || str == "XIIX" || str == "IIXX"
            || str == "M"
            || str in ["CM", "D", "CD", "C"]
            || str in ["XC", "L", "XL", "X"]
            || str in ["IX", "V", "IV", "I"]
  {
  }

  /** A classical hundreds symbol is its digit in place-value notation. */
  lemma HundredsSymbol(str: string) returns (b: nat)
    requires str in ["CM", "D", "CD", "C"]
    ensures b < 10 && PlaceValue(0, b, 0, 0) == str
    ensures str in Values && Values[str] == 100 * b
    ensures forall i :: 0 <= i < |str| ==> str[i] in RomanLetters
  {
    HundredsValues();
    if str == "CM" {
      b := 9;
      SinglePlace(9, 0, 0);
    } else if str == "D" {
      b := 5;
      SinglePlace(5, 0, 0);
    } else if str == "CD" {
      b := 4;
      SinglePlace(4, 0, 0);
    } else {
      b := 1;
      SinglePlace(1, 0, 0);
    }
  }

  /** A classical tens symbol is its digit in place-value notation. */
  lemma TensSymbol(str: string) returns (c: nat)
    requires str in ["XC", "L", "XL", "X"]
    ensures c < 10 && PlaceValue(0, 0, c, 0) == str
    ensures str in Values && Values[str] == 10 * c
    ensures forall i :: 0 <= i < |str| ==> str[i] in RomanLetters
  {
    TensValues();
    if str == "XC" {
      c := 9;
      SinglePlace(0, 9, 0);
    } else if str == "L" {
      c := 5;
      SinglePlace(0, 5, 0);
    } else if str == "XL" {
      c := 4;
      SinglePlace(0, 4, 0);
    } else {
      c := 1;
      SinglePlace(0, 1, 0);
    }
  }

  /** A classical units symbol is its digit in place-value notation. */
  lemma UnitsSymbol(str: string) returns (d: nat)
    requires str in ["IX", "V", "IV", "I"]
    ensures d < 10 && PlaceValue(0, 0, 0, d) == str
    ensures str in Values && Values[str] == d
    ensures forall i :: 0 <= i < |str| ==> str[i] in RomanLetters
  {
    UnitsValues();
    if str == "IX" {
      d := 9;
      SinglePlace(0, 0, 9);
    } else if str == "V" {
      d := 5;
      SinglePlace(0, 0, 5);
    } else if str == "IV" {
      d := 4;
      SinglePlace(0, 0, 4);
    } else {
      d := 1;
      SinglePlace(0, 0, 1);
    }
  }

  /** A classical symbol of one digit of one place is that number written in
      place-value notation, and its value is that number. */
  lemma StandardSymbolDigits(str: string) returns (a: nat, b: nat, c: nat, d: nat)
    requires || str == "M"
             || str in ["CM", "D", "CD", "C"]
             || str in ["XC", "L", "XL", "X"]
             || str in ["IX", "V", "IV", "I"]
    ensures a <= 3 && b < 10 && c < 10 && d < 10
    ensures PlaceValue(a, b, c, d) == str
    ensures str in Values && Values[str] == 1000 * a + 100 * b + 10 * c + d
    ensures forall i :: 0 <= i < |str| ==> str[i] in RomanLetters
  {
    a, b, c, d := 0, 0, 0, 0;
    if str == "M" {
      a := 1;
      assert PlaceValue(1, 0, 0, 0) == Repeat('M', 1) + BelowThousand(0, 0, 0);
    } else if str in ["CM", "D", "CD", "C"] {
      b := HundredsSymbol(str);
    } else if str in ["XC", "L", "XL", "X"] {
      c := TensSymbol(str);
    } else {
      d := UnitsSymbol(str);
    }
  }

  /** The fast path agrees with the rest of the decoder on the classical
      symbols of one digit. */
  lemma FastPathAgreesStandard(str: string)
    requires || str == "M"
             || str in ["CM", "D", "CD", "C"]
             || str in ["XC", "L", "XL", "X"]
             || str in ["IX", "V", "IV", "I"]
    ensures Normalize(str) == str
    ensures CheckAndRead(str) == Lift(FromInt(Values[str]))
  {
    var a, b, c, d := StandardSymbolDigits(str);
    ClassicalTextIsNormal(str);
    PlaceValueAgrees(str, a, b, c, d, Values[str]);
  }

  /** A text that spells a place-value numeral with at most three thousands
      is read by the rest of the decoder as that numeral's number. */
  lemma PlaceValueAgrees(s: string, a: nat, b: nat, c: nat, d: nat, n: nat)
    requires a <= 3 && b < 10 && c < 10 && d < 10
    requires s == PlaceValue(a, b, c, d) && n == 1000 * a + 100 * b + 10 * c + d
    ensures CheckAndRead(s) == Lift(FromInt(n))
  {
    CheckAndReadPlaceValue(a, b, c, d);
  }

  /** The fast path agrees with the rest of the decoder on the two spellings of 18. */
  lemma FastPathAgreesEighteen(str: string)
    requires str == "XIIX" || str == "IIXX"
    ensures Normalize(str) == str
    ensures CheckAndRead(str) == Lift(FromInt(Values[str]))
  {
    if str == "XIIX" {
      EighteenAgrees("XIIX");
      CheckAndReadXIIX();
    } else {
      EighteenAgrees("IIXX");
      CheckAndReadIIXX();
    }
  }

  /** A spelling of 18 is left as it is by normalisation, and the
      integer constructor accepts its value. */
  lemma EighteenAgrees(s: string)
    requires s == "XIIX" || s == "IIXX"
    ensures Normalize(s) == s
    ensures s in Values && Lift(FromInt(Values[s])) == Ok(Some(18))
  {
    assert forall i :: 0 <= i < |s| ==> s[i] in RomanLetters;
    ClassicalTextIsNormal(s);
    OtherValues();
  }

  /** The medieval symbols are made of refused letters. */
  lemma MedievalSymbolsRefused(str: string)
    requires str in ["O", "F", "P", "G", "Q"]
    ensures ContainsNonRoman(Normalize(str))
  {
    assert Normalize(str)[0] == str[0];
    assert Normalize(str)[0] in NonRomanNumerals;
  }

  /** The fast path is a shortcut only: a text that is itself a known symbol
      and survives the letter check is refused by nothing and read as that
      symbol's value by the rest of the decoder too. The medieval symbols O,
      F, P, G and Q never reach the fast path, since their letters are refused. */
  lemma FastPathAgrees(str: string)
    requires str in Values && !ContainsNonRoman(Normalize(str))
    ensures Normalize(str) == str
    ensures CheckAndRead(str) == Lift(FromInt(Values[str]))
  {
    KnownSymbolKinds(str);
    if str in ["O", "F", "P", "G", "Q"] {
      MedievalSymbolsRefused(str);
    } else if str == "XIIX" || str == "IIXX" {
      FastPathAgreesEighteen(str);
    } else {
      FastPathAgreesStandard(str);
    }
  }

  /** Once a text is past the zero cases and the letter check, the fast path
      makes no difference: `Parse` gives what the repetition check and the
      reading loop give on the normalised text. */
  lemma FastPathIsShortcut(str: string)
    requires str != [] && Upper(str) != Nulla && !ContainsNonRoman(Normalize(str))
    ensures Parse(str) == CheckAndRead(Normalize(str))
  {
    if str in Values {
      FastPathAgrees(str);
    }
  }

  /** Every number from 1 to 3999 written in subtractive notation is read
      back as itself. */
  lemma RoundTrip(num: Numeral)
    requires 1 <= num <= 3999
    ensures Parse(ToString(num, Subtractive)) == Ok(Some(num))
  {
    var n := num as nat;
    var s := ToString(num, Subtractive);
    ToStringIsStandard(num);
    var a, b, c, d := DecimalDigits(n);
    assert s == PlaceValue(a, b, c, d);
    ClassicalTextIsNormal(s);
    FastPathIsShortcut(s);
    CheckAndReadPlaceValue(a, b, c, d);
  }

  /** 4000 is written "MMMM". */
  lemma FourThousandWritten()
    ensures ToString(4000, Subtractive) == "MMMM"
  {
    ToStringIsStandard(4000);
    var a, b, c, d := DecimalDigits(4000);
    assert a == 4 && b == 0 && c == 0 && d == 0;
    assert BelowThousand(b, c, d) == [] by {
      SinglePlace(0, 0, 0);
    }
    assert Repeat('M', a) == "MMMM";
  }

  /** "MMMM" is refused for repeating M four times. */
  lemma FourMsRefused()
    ensures Parse("MMMM") == Throws(TooManyRepeats)
  {
    ClassicalTextIsNormal("MMMM");
    assert BadAt("MMMM", 0);
    RepeatRule("MMMM");
  }

  /** 4000 is written "MMMM", which the decoder refuses for repeating M four
      times, so the round trip stops at 3999. */
  lemma FourThousandIsRefused()
    ensures Parse(ToString(4000, Subtractive)) == Throws(TooManyRepeats)
  {
    FourThousandWritten();
    FourMsRefused();
  }
}
