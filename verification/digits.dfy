/**
  The conventional place-value spelling of Roman numerals, and the proof
  that the greedy encoder in subtractive notation produces exactly it.
 */
module Digits {
  import opened Tables
  import opened Numerals
  import opened Encoder

  /** `k` copies of a letter. */
  function Repeat(c: char, k: nat): (r: string)
    ensures |r| == k
    ensures forall i :: 0 <= i < k ==> r[i] == c
  {
    seq(k, _ => c)
  }

  /** One decimal digit in standard Roman notation, written with the
      letters for one, five and ten units of its place. */
  function RomanDigit(d: nat, one: char, five: char, ten: char): string
    requires d < 10
  {
    if d == 9 then [one, ten]
    else if d == 4 then [one, five]
    else if d >= 5 then [five] + Repeat(one, d - 5)
    else Repeat(one, d)
  }

  /** Standard Roman notation by place value: thousands as repeated M,
      then the hundreds, tens and units digits. */
  function RomanDigits(n: nat): string
  {
    PlaceValue(n / 1000, n / 100 % 10, n / 10 % 10, n % 10)
  }

  /** The thousands count and the hundreds, tens and units digits, written out. */
  function PlaceValue(a: nat, b: nat, c: nat, d: nat): string
    requires b < 10 && c < 10 && d < 10
  {
    Repeat('M', a) + BelowThousand(b, c, d)
  }

  /** The hundreds, tens and units digits, written out. */
  function BelowThousand(b: nat, c: nat, d: nat): string
    requires b < 10 && c < 10 && d < 10
  {
    RomanDigit(b, 'C', 'D', 'M') + (RomanDigit(c, 'X', 'L', 'C') + RomanDigit(d, 'I', 'V', 'X'))
  }

  /** Spelling `k` picks of a one-letter symbol repeats its letter `k` times. */
  lemma {:induction false} SpellRepeat(tab: seq<string>, q: nat, c: char, k: nat)
    requires q < |tab| && tab[q] == [c]
    ensures ValidPicks(tab, seq(k, _ => q))
    ensures Spell(tab, seq(k, _ => q)) == Repeat(c, k)
    decreases k
  {
    if k > 0 {
      SpellRepeat(tab, q, c, k - 1);
      assert seq(k, _ => q)[1..] == seq(k - 1, _ => q);
      assert Repeat(c, k) == [c] + Repeat(c, k - 1);
    }
  }

  /** The symbols of a place, at the given positions of a list: worth 9, 5,
      4 and 1 units. */
  predicate PlaceOptions(vals: map<string, nat>, tab: seq<string>, nine: nat, five: nat, four: nat, one: nat, u: nat)
  {
    && nine < |tab| && five < |tab| && four < |tab| && one < |tab| && u > 0
    && tab[nine] in vals && vals[tab[nine]] == 9 * u
    && tab[five] in vals && vals[tab[five]] == 5 * u
    && tab[four] in vals && vals[tab[four]] == 4 * u
    && tab[one] in vals && vals[tab[one]] == u
  }

  /** A place of the subtractive list: four consecutive symbols, spelled
      with the letters for one, five and ten units, worth 9, 5, 4 and 1 units. */
  predicate IsPlace(vals: map<string, nat>, tab: seq<string>, p: nat, u: nat, one: char, five: char, ten: char)
  {
    && p + 3 < |tab|
    && tab[p] == [one, ten] && tab[p + 1] == [five] && tab[p + 2] == [one, five] && tab[p + 3] == [one]
    && PlaceOptions(vals, tab, p, p + 1, p + 2, p + 3, u)
  }

  /** The picks of both greedy walks for digit `d` of a place whose nine,
      five, four and one symbols sit at the given positions. */
  function PlacePicks(nine: nat, five: nat, four: nat, one: nat, d: nat): seq<nat>
    requires d < 10
  {
    if d == 9 then [nine]
    else if d == 4 then [four]
    else if d >= 5 then [five] + seq(d - 5, _ => one)
    else seq(d, _ => one)
  }

  /** The digit's picks spell the digit. */
  lemma SpellDigit(vals: map<string, nat>, tab: seq<string>, p: nat, u: nat, one: char, five: char, ten: char, d: nat)
    requires IsPlace(vals, tab, p, u, one, five, ten) && d < 10
    ensures ValidPicks(tab, PlacePicks(p, p + 1, p + 2, p + 3, d))
    ensures Spell(tab, PlacePicks(p, p + 1, p + 2, p + 3, d)) == RomanDigit(d, one, five, ten)
  {
    if 5 <= d < 9 {
      SpellRepeat(tab, p + 3, one, d - 5);
      assert PlacePicks(p, p + 1, p + 2, p + 3, d)[1..] == seq(d - 5, _ => p + 3);
    } else if d < 4 {
      SpellRepeat(tab, p + 3, one, d);
    }
  }

  /** Fewer than `k` whole units and a remainder below one unit stay
      below `k` units. */
  lemma BelowUnits(d: nat, u: nat, r: nat, k: nat)
    requires d < k && r < u
    ensures d * u + r < k * u
  {
    MultipleMonotone(d + 1, k, u);
    assert (d + 1) * u == d * u + u;
  }

  /** More copies of `u` are worth at least as much. */
  lemma {:induction false} MultipleMonotone(a: nat, b: nat, u: nat)
    requires a <= b
    ensures a * u <= b * u
    decreases b - a
  {
    if a < b {
      MultipleMonotone(a + 1, b, u);
      assert (a + 1) * u == a * u + u;
    }
  }

  /** A digit from 5 to 8 is five units and then its excess over five. */
  lemma FiveAndMore(d: nat, u: nat, r: nat)
    requires 5 <= d < 9 && r < u
    ensures d * u + r == 5 * u + ((d - 5) * u + r)
    ensures (d - 5) * u + r < 4 * u
  {
    BelowUnits(d - 5, u, r, 4);
  }

  /** Digits 0 to 3: the unit letter, repeated. */
  lemma EncodeLowDigit(vals: map<string, nat>, tab: seq<string>, p: nat, u: nat, one: char, five: char, ten: char, d: nat, r: nat)
    requires EncodableList(vals, tab) && IsPlace(vals, tab, p, u, one, five, ten)
    requires d < 4 && r < u
    requires r > 0 ==> p + 4 < |tab|
    ensures EncodeFrom(vals, tab, p, d * u + r) == PlacePicks(p, p + 1, p + 2, p + 3, d) + EncodeFrom(vals, tab, p + 4, r)
  {
    BelowUnits(d, u, r, 4);
    EncodeSkipTo(vals, tab, p, p + 3, d * u + r);
    EncodeRepeat(vals, tab, p + 3, d, r);
  }

  /** Digits 5 to 8: the five letter, then the unit letter repeated. */
  lemma EncodeHighDigit(vals: map<string, nat>, tab: seq<string>, p: nat, u: nat, one: char, five: char, ten: char, d: nat, r: nat)
    requires EncodableList(vals, tab) && IsPlace(vals, tab, p, u, one, five, ten)
    requires 5 <= d < 9 && r < u
    requires r > 0 ==> p + 4 < |tab|
    ensures EncodeFrom(vals, tab, p, d * u + r) == PlacePicks(p, p + 1, p + 2, p + 3, d) + EncodeFrom(vals, tab, p + 4, r)
  {
    EncodeFive(vals, tab, p, u, one, five, ten, d, r);
    EncodeRepeat(vals, tab, p + 3, d - 5, r);
    HighPicks(p, d, EncodeFrom(vals, tab, p + 4, r));
  }

  /** The picks of a digit from 5 to 8, followed by more picks. */
  lemma HighPicks(p: nat, d: nat, rest: seq<nat>)
    requires 5 <= d < 9
    ensures PlacePicks(p, p + 1, p + 2, p + 3, d) + rest == [p + 1] + (seq(d - 5, _ => p + 3) + rest)
  {
  }

  /** A digit from 5 to 8: the five letter, then the walk goes on from the
      unit letter with the excess over five units. */
  lemma EncodeFive(vals: map<string, nat>, tab: seq<string>, p: nat, u: nat, one: char, five: char, ten: char, d: nat, r: nat)
    requires EncodableList(vals, tab) && IsPlace(vals, tab, p, u, one, five, ten)
    requires 5 <= d < 9 && r < u
    ensures EncodeFrom(vals, tab, p, d * u + r) == [p + 1] + EncodeFrom(vals, tab, p + 3, (d - 5) * vals[tab[p + 3]] + r)
  {
    FiveAndMore(d, u, r);
    EncodeFiveUnits(vals, tab, p, u, one, five, ten, (d - 5) * u + r);
  }

  /** Five units and less than four more: the five letter, then the walk
      goes on from the unit letter. */
  lemma EncodeFiveUnits(vals: map<string, nat>, tab: seq<string>, p: nat, u: nat, one: char, five: char, ten: char, w: nat)
    requires EncodableList(vals, tab) && IsPlace(vals, tab, p, u, one, five, ten)
    requires w < 4 * u
    ensures EncodeFrom(vals, tab, p, 5 * u + w) == [p + 1] + EncodeFrom(vals, tab, p + 3, w)
  {
    EncodeSkipTake(vals, tab, p, p + 1, 5 * u + w);
    EncodeSkipTo(vals, tab, p + 1, p + 3, w);
  }

  /** Digit 9: one before ten, written once. */
  lemma EncodeNine(vals: map<string, nat>, tab: seq<string>, p: nat, u: nat, one: char, five: char, ten: char, d: nat, r: nat)
    requires EncodableList(vals, tab) && IsPlace(vals, tab, p, u, one, five, ten)
    requires d == 9 && r < u
    requires r > 0 ==> p + 4 < |tab|
    ensures EncodeFrom(vals, tab, p, d * u + r) == PlacePicks(p, p + 1, p + 2, p + 3, d) + EncodeFrom(vals, tab, p + 4, r)
  {
    EncodeSkipTake(vals, tab, p, p, 9 * u + r);
    EncodeSkipTo(vals, tab, p + 1, p + 4, r);
  }

  /** Digit 4: one before five, written once. */
  lemma EncodeFour(vals: map<string, nat>, tab: seq<string>, p: nat, u: nat, one: char, five: char, ten: char, d: nat, r: nat)
    requires EncodableList(vals, tab) && IsPlace(vals, tab, p, u, one, five, ten)
    requires d == 4 && r < u
    requires r > 0 ==> p + 4 < |tab|
    ensures EncodeFrom(vals, tab, p, d * u + r) == PlacePicks(p, p + 1, p + 2, p + 3, d) + EncodeFrom(vals, tab, p + 4, r)
  {
    EncodeSkipTake(vals, tab, p, p + 2, 4 * u + r);
    EncodeSkipTo(vals, tab, p + 3, p + 4, r);
  }

  /** The greedy walk over one place picks that place's digit and moves on
      to the next place with the remainder. */
  lemma EncodePlace(vals: map<string, nat>, tab: seq<string>, p: nat, u: nat, one: char, five: char, ten: char, d: nat, r: nat)
    requires EncodableList(vals, tab) && IsPlace(vals, tab, p, u, one, five, ten)
    requires d < 10 && r < u
    requires r > 0 ==> p + 4 < |tab|
    ensures EncodeFrom(vals, tab, p, d * u + r) == PlacePicks(p, p + 1, p + 2, p + 3, d) + EncodeFrom(vals, tab, p + 4, r)
  {
    if d == 9 {
      EncodeNine(vals, tab, p, u, one, five, ten, d, r);
    } else if d == 4 {
      EncodeFour(vals, tab, p, u, one, five, ten, d, r);
    } else if d >= 5 {
      EncodeHighDigit(vals, tab, p, u, one, five, ten, d, r);
    } else {
      EncodeLowDigit(vals, tab, p, u, one, five, ten, d, r);
    }
  }

  /** The greedy walk over one place writes that place's digit and moves on
      to the next place with the remainder. */
  lemma EncodeDigit(vals: map<string, nat>, tab: seq<string>, p: nat, u: nat, one: char, five: char, ten: char, d: nat, r: nat)
    requires EncodableList(vals, tab) && IsPlace(vals, tab, p, u, one, five, ten)
    requires d < 10 && r < u
    requires r > 0 ==> p + 4 < |tab|
    ensures Spell(tab, EncodeFrom(vals, tab, p, d * u + r)) == RomanDigit(d, one, five, ten) + Spell(tab, EncodeFrom(vals, tab, p + 4, r))
  {
    EncodePlace(vals, tab, p, u, one, five, ten, d, r);
    SpellDigit(vals, tab, p, u, one, five, ten, d);
    SpellAppend(tab, PlacePicks(p, p + 1, p + 2, p + 3, d), EncodeFrom(vals, tab, p + 4, r));
  }

  /** The subtractive list is made of the thousands symbol followed by the
      hundreds, tens and units places. */
  lemma SubtractivePlaces()
    ensures EncodableList(Values, SubtractiveNotation)
    ensures |SubtractiveNotation| == 13 && SubtractiveNotation[0] == "M" && Values["M"] == 1000
    ensures IsPlace(Values, SubtractiveNotation, 1, 100, 'C', 'D', 'M')
    ensures IsPlace(Values, SubtractiveNotation, 5, 10, 'X', 'L', 'C')
    ensures IsPlace(Values, SubtractiveNotation, 9, 1, 'I', 'V', 'X')
  {
    SubtractiveListWellFormed();
    HundredsValues();
    SubtractiveHundreds();
    SubtractiveTens();
    SubtractiveUnits();
  }

  /** CM, D, CD and C are the hundreds place of the subtractive list. */
  lemma SubtractiveHundreds()
    ensures IsPlace(Values, SubtractiveNotation, 1, 100, 'C', 'D', 'M')
  {
    HundredsValues();
  }

  /** XC, L, XL and X are the tens place of the subtractive list. */
  lemma SubtractiveTens()
    ensures IsPlace(Values, SubtractiveNotation, 5, 10, 'X', 'L', 'C')
  {
    TensValues();
  }

  /** IX, V, IV and I are the units place of the subtractive list. */
  lemma SubtractiveUnits()
    ensures IsPlace(Values, SubtractiveNotation, 9, 1, 'I', 'V', 'X')
  {
    UnitsValues();
  }

  /** The walk over the units place, which ends the list, writes the units digit. */
  lemma EncodeUnits(vals: map<string, nat>, tab: seq<string>, d: nat)
    requires EncodableList(vals, tab) && |tab| == 13
    requires IsPlace(vals, tab, 9, 1, 'I', 'V', 'X')
    requires d < 10
    ensures Spell(tab, EncodeFrom(vals, tab, 9, d)) == RomanDigit(d, 'I', 'V', 'X')
  {
    assert d == d * 1 + 0;
    EncodeDigit(vals, tab, 9, 1, 'I', 'V', 'X', d, 0);
    assert Spell(tab, EncodeFrom(vals, tab, 13, 0)) == [];
  }

  /** The walk over the tens and units places writes both digits. */
  lemma EncodeTensUnits(vals: map<string, nat>, tab: seq<string>, c: nat, d: nat)
    requires EncodableList(vals, tab) && |tab| == 13
    requires IsPlace(vals, tab, 5, 10, 'X', 'L', 'C')
    requires IsPlace(vals, tab, 9, 1, 'I', 'V', 'X')
    requires c < 10 && d < 10
    ensures Spell(tab, EncodeFrom(vals, tab, 5, c * 10 + d)) == RomanDigit(c, 'X', 'L', 'C') + RomanDigit(d, 'I', 'V', 'X')
  {
    EncodeDigit(vals, tab, 5, 10, 'X', 'L', 'C', c, d);
    EncodeUnits(vals, tab, d);
  }

  /** The walk over the hundreds, tens and units places writes all three digits. */
  lemma EncodeThreePlaces(vals: map<string, nat>, tab: seq<string>, b: nat, c: nat, d: nat)
    requires EncodableList(vals, tab) && |tab| == 13
    requires IsPlace(vals, tab, 1, 100, 'C', 'D', 'M')
    requires IsPlace(vals, tab, 5, 10, 'X', 'L', 'C')
    requires IsPlace(vals, tab, 9, 1, 'I', 'V', 'X')
    requires b < 10 && c < 10 && d < 10
    ensures Spell(tab, EncodeFrom(vals, tab, 1, b * 100 + (c * 10 + d))) == BelowThousand(b, c, d)
  {
    EncodeDigit(vals, tab, 1, 100, 'C', 'D', 'M', b, c * 10 + d);
    EncodeTensUnits(vals, tab, c, d);
  }

  /** Division by ten, given the quotient and remainder. */
  lemma DivTen(n: nat, q: nat, r: nat)
    requires r < 10 && n == 10 * q + r
    ensures n / 10 == q && n % 10 == r
  {
  }

  /** Division by a hundred, given the quotient and remainder. */
  lemma DivHundred(n: nat, q: nat, r: nat)
    requires r < 100 && n == 100 * q + r
    ensures n / 100 == q && n % 100 == r
  {
  }

  /** Division by a thousand, given the quotient and remainder. */
  lemma DivThousand(n: nat, q: nat, r: nat)
    requires r < 1000 && n == 1000 * q + r
    ensures n / 1000 == q && n % 1000 == r
  {
  }

  /** The decimal digits of a number: its thousands `a`, and the hundreds,
      tens and units digits `b`, `c`, `d`. */
  lemma DecimalDigits(n: nat) returns (a: nat, b: nat, c: nat, d: nat)
    ensures a == n / 1000 && b == n / 100 % 10 && c == n / 10 % 10 && d == n % 10
    ensures b < 10 && c < 10 && d < 10
    ensures n % 1000 == b * 100 + (c * 10 + d) && n == a * 1000 + n % 1000
  {
    a := n / 1000;
    var m := n % 1000;
    b := m / 100;
    var x := m % 100;
    c := x / 10;
    d := x % 10;
    DigitsOf(n, a, b, c, d);
  }

  /** A number made of a thousands count and three digits has them as its
      decimal digits. */
  lemma DigitsOf(n: nat, a: nat, b: nat, c: nat, d: nat)
    requires b < 10 && c < 10 && d < 10
    requires n == 1000 * a + (100 * b + (10 * c + d))
    ensures a == n / 1000 && b == n / 100 % 10 && c == n / 10 % 10 && d == n % 10
    ensures n % 1000 == b * 100 + (c * 10 + d) && n == a * 1000 + n % 1000
  {
    DivThousand(n, a, 100 * b + (10 * c + d));
    DivHundred(n, 10 * a + b, 10 * c + d);
    DivTen(10 * a + b, a, b);
    DivTen(n, 100 * a + 10 * b + c, d);
    DivTen(100 * a + 10 * b + c, 10 * a + b, c);
  }

  /** A number given by its thousands and three digits has exactly those
      as its decimal digits, so it is written as they are. */
  lemma RomanDigitsOf(a: nat, b: nat, c: nat, d: nat)
    requires b < 10 && c < 10 && d < 10
    ensures RomanDigits(1000 * a + 100 * b + 10 * c + d) == PlaceValue(a, b, c, d)
  {
    DigitsOf(1000 * a + 100 * b + 10 * c + d, a, b, c, d);
  }

  /** The walk from a leading single-letter symbol worth `u` writes it once
      per whole `u` of the value, then walks the rest of the list. */
  lemma EncodeLeading(vals: map<string, nat>, tab: seq<string>, c: char, u: nat, a: nat, m: nat)
    requires EncodableList(vals, tab) && |tab| > 1
    requires tab[0] == [c] && vals[tab[0]] == u && m < u
    ensures Spell(tab, EncodeFrom(vals, tab, 0, a * u + m)) == Repeat(c, a) + Spell(tab, EncodeFrom(vals, tab, 1, m))
  {
    EncodeRepeat(vals, tab, 0, a, m);
    SpellRepeat(tab, 0, c, a);
    SpellAppend(tab, seq(a, _ => 0), EncodeFrom(vals, tab, 1, m));
  }

  /** The walk over a list laid out like the subtractive one writes the
      thousands count and the three digits in place-value notation. */
  lemma EncodeFourPlaces(vals: map<string, nat>, tab: seq<string>, a: nat, b: nat, c: nat, d: nat)
    requires EncodableList(vals, tab) && |tab| == 13
    requires tab[0] == ['M'] && vals[tab[0]] == 1000
    requires IsPlace(vals, tab, 1, 100, 'C', 'D', 'M')
    requires IsPlace(vals, tab, 5, 10, 'X', 'L', 'C')
    requires IsPlace(vals, tab, 9, 1, 'I', 'V', 'X')
    requires b < 10 && c < 10 && d < 10
    ensures Spell(tab, EncodeFrom(vals, tab, 0, a * 1000 + (b * 100 + (c * 10 + d)))) == PlaceValue(a, b, c, d)
  {
    var m := b * 100 + (c * 10 + d);
    var below := Spell(tab, EncodeFrom(vals, tab, 1, m));
    EncodeLeading(vals, tab, 'M', 1000, a, m);
    EncodeThreePlaces(vals, tab, b, c, d);
    assert below == BelowThousand(b, c, d);
  }

  /** The greedy encoder in subtractive notation writes every positive
      number in standard place-value notation. */
  lemma EncodeIsPlaceValue(n: nat)
    requires n > 0
    ensures EncodableList(Values, SubtractiveNotation)
    ensures Spell(SubtractiveNotation, EncodeFrom(Values, SubtractiveNotation, 0, n)) == RomanDigits(n)
  {
    SubtractivePlaces();
    var a, b, c, d := DecimalDigits(n);
    EncodeFourPlaces(Values, SubtractiveNotation, a, b, c, d);
  }

  /** `ToString` in subtractive notation writes standard Roman numerals:
      every positive numeral comes out in place-value notation. */
  lemma ToStringIsStandard(num: Numeral)
    requires num > 0
    ensures ToString(num, Subtractive) == RomanDigits(num as nat)
  {
    EncodeIsPlaceValue(num as nat);
  }
}
