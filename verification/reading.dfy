/**
  How the decoding loop reads text written in standard place-value
  notation: the thousands, then each of the three digits, each consumed by
  the options of its place, leaving the pointer at the next place.
 */
module Reading {
  import opened Tables
  import opened Numerals
  import opened Decoder
  import opened Digits
  import opened Encoder

  /** A reading preceded by some picks. */
  function Prefixed(picks: seq<nat>, sc: Scan): Scan
  {
    Scan(picks + sc.picks, sc.rest)
  }

  /** A text that differs from `a` at a position of `a` (or is shorter)
      does not start with `a`. */
  lemma DiffersAt(a: string, s: string, i: nat)
    requires i < |a| && (i >= |s| || a[i] != s[i])
    ensures !(a <= s)
  {
  }

  /** The loop on an empty text stops at once. */
  lemma ReadEmpty(ptr: nat)
    ensures ReadFrom([], ptr) == Scan([], [])
  {
  }

  /** An option that does not start the text is passed over. */
  lemma ReadSkip(s: string, ptr: nat)
    requires s != [] && ptr < |NumeralOptions| && !(NumeralOptions[ptr] <= s)
    ensures ReadFrom(s, ptr) == ReadFrom(s, ptr + 1)
  {
    OptionsAreKnown();
  }

  /** An option that starts the text is consumed. */
  lemma ReadTake(s: string, ptr: nat)
    requires ptr < |NumeralOptions| && NumeralOptions[ptr] <= s
    ensures |NumeralOptions[ptr]| <= |s|
    ensures ReadFrom(s, ptr)
         == Prefixed([ptr], ReadFrom(s[|NumeralOptions[ptr]|..], if |NumeralOptions[ptr]| > 1 then ptr + 1 else ptr))
  {
    OptionsAreKnown();
  }

  /** An option followed by more text is consumed, and the loop goes on
      with the text after it. */
  lemma ReadTakeFront(ptr: nat, r: string)
    requires ptr < |NumeralOptions|
    ensures ReadFrom(NumeralOptions[ptr] + r, ptr)
         == Prefixed([ptr], ReadFrom(r, if |NumeralOptions[ptr]| > 1 then ptr + 1 else ptr))
  {
    var a := NumeralOptions[ptr];
    assert (a + r)[..|a|] == a;
    assert (a + r)[|a|..] == r;
    ReadTake(a + r, ptr);
  }

  /** A text that is exactly the current option is read as that option. */
  lemma ReadLast(ptr: nat)
    requires ptr < |NumeralOptions|
    ensures ReadFrom(NumeralOptions[ptr], ptr) == Scan([ptr], [])
  {
    var next := if |NumeralOptions[ptr]| > 1 then ptr + 1 else ptr;
    ReadTakeFront(ptr, []);
    assert NumeralOptions[ptr] + [] == NumeralOptions[ptr];
    ReadEmpty(next);
  }

  /** A stretch of options none of which starts the text is passed over. */
  lemma {:induction false} ReadSkipTo(s: string, p: nat, q: nat)
    requires p <= q <= |NumeralOptions|
    requires forall j :: p <= j < q ==> !(NumeralOptions[j] <= s)
    ensures ReadFrom(s, p) == ReadFrom(s, q)
    decreases q - p
  {
    if p < q {
      if s == [] {
        ReadEmpty(p);
        ReadEmpty(q);
      } else {
        ReadSkip(s, p);
        ReadSkipTo(s, p + 1, q);
      }
    }
  }

  /** One step of the loop over any option list, when the option at the
      pointer starts the text. */
  lemma ScanTake(tab: seq<string>, s: string, p: nat)
    requires NonEmptySymbols(tab)
    requires p < |tab| && tab[p] <= s
    ensures |tab[p]| <= |s|
    ensures GreedyScan(tab, s, p)
         == Prefixed([p], GreedyScan(tab, s[|tab[p]|..], if |tab[p]| > 1 then p + 1 else p))
  {
  }

  /** Picks in front of picks in front of a reading. */
  lemma PrefixedTwice(a: seq<nat>, b: seq<nat>, sc: Scan)
    ensures Prefixed(a, Prefixed(b, sc)) == Prefixed(a + b, sc)
  {
    assert a + (b + sc.picks) == (a + b) + sc.picks;
  }

  /** A one-letter option consumes a run of its letter, and the pointer
      stays on it (any option list). */
  lemma {:induction false} ScanRepeat(tab: seq<string>, p: nat, c: char, k: nat, rest: string)
    requires NonEmptySymbols(tab)
    requires p < |tab| && tab[p] == [c]
    requires rest == [] || rest[0] != c
    ensures GreedyScan(tab, Repeat(c, k) + rest, p) == Prefixed(seq(k, _ => p), GreedyScan(tab, rest, p))
    decreases k
  {
    var tail := GreedyScan(tab, rest, p);
    if k == 0 {
      assert Repeat(c, k) + rest == rest;
      assert seq(k, _ => p) + tail.picks == tail.picks;
    } else {
      var s := Repeat(c, k) + rest;
      var s' := Repeat(c, k - 1) + rest;
      assert s[0] == c && s[1..] == s';
      assert tab[p] <= s;
      ScanTake(tab, s, p);
      ScanRepeat(tab, p, c, k - 1, rest);
      PrefixedTwice([p], seq(k - 1, _ => p), tail);
      assert [p] + seq(k - 1, _ => p) == seq(k, _ => p);
    }
  }

  /** A one-letter option consumes a run of its letter, and the pointer stays on it. */
  lemma ReadRepeat(p: nat, c: char, k: nat, rest: string)
    requires p < |NumeralOptions| && NumeralOptions[p] == [c]
    requires rest == [] || rest[0] != c
    ensures ReadFrom(Repeat(c, k) + rest, p) == Prefixed(seq(k, _ => p), ReadFrom(rest, p))
  {
    OptionsAreKnown();
    ScanRepeat(NumeralOptions, p, c, k, rest);
  }

  /** A run of I's is read by the last option, whatever units option the pointer is on. */
  lemma ReadUnitOnes(k: nat, p: nat)
    requires 16 <= p <= 19
    ensures ReadFrom(Repeat('I', k), p) == Scan(seq(k, _ => 19), [])
  {
    var s := Repeat('I', k);
    if k == 0 {
      ReadEmpty(p);
    } else {
      forall j | p <= j < 19
        ensures !(NumeralOptions[j] <= s)
      {
        if j == 16 || j == 18 {
          DiffersAt(NumeralOptions[j], s, 1);
        } else {
          DiffersAt(NumeralOptions[j], s, 0);
        }
      }
      ReadSkipTo(s, p, 19);
      assert s + [] == s;
      ReadRepeat(19, 'I', k, []);
      ReadEmpty(19);
      assert seq(k, _ => 19) + [] == seq(k, _ => 19);
    }
  }

  /** The units digit is read from the first units option to the end of the text. */
  lemma ReadUnits(d: nat)
    requires d < 10
    ensures ReadFrom(RomanDigit(d, 'I', 'V', 'X'), 16) == Scan(PlacePicks(16, 17, 18, 19, d), [])
  {
    var s := RomanDigit(d, 'I', 'V', 'X');
    if d == 9 {
      ReadTake(s, 16);
      assert s[2..] == [];
      ReadEmpty(17);
    } else if d == 4 {
      DiffersAt(NumeralOptions[16], s, 1);
      ReadSkip(s, 16);
      DiffersAt(NumeralOptions[17], s, 0);
      ReadSkip(s, 17);
      ReadTake(s, 18);
      assert s[2..] == [];
      ReadEmpty(19);
    } else if d >= 5 {
      DiffersAt(NumeralOptions[16], s, 0);
      ReadSkip(s, 16);
      ReadTake(s, 17);
      assert s[1..] == Repeat('I', d - 5);
      ReadUnitOnes(d - 5, 17);
    } else {
      ReadUnitOnes(d, 16);
    }
  }

  /** What may follow the tens digit: nothing, or a units digit, which
      starts with I or V and never with "IIX". */
  predicate UnitsTail(r: string)
  {
    (r == [] || r[0] == 'I' || r[0] == 'V') && !("IIX" <= r)
  }

  /** What may follow the hundreds digit: nothing, or a letter of the tens or units. */
  predicate HundredsTail(r: string)
  {
    r == [] || r[0] == 'X' || r[0] == 'L' || r[0] == 'V' || r[0] == 'I'
  }

  /** A text starting with one letter and then `r` starts with `a` only if
      `r` starts with the rest of `a`. */
  lemma PrefixTail(a: string, c: char, r: string)
    requires |a| > 0 && a <= [c] + r
    ensures a[1..] <= r
  {
    assert a[1..] == ([c] + r)[1..|a|];
  }

  /** After the tens place, the units options are reached with nothing consumed. */
  lemma TensSkipTail(r: string, p: nat)
    requires 8 <= p <= 16 && UnitsTail(r)
    ensures ReadFrom(r, p) == ReadFrom(r, 16)
  {
    forall j | p <= j < 16
      ensures !(NumeralOptions[j] <= r)
    {
      if j != 12 || r == [] || r[0] != 'I' {
        DiffersAt(NumeralOptions[j], r, 0);
      }
    }
    ReadSkipTo(r, p, 16);
  }

  /** A run of X's before the units is read by the one-letter option X. */
  lemma ReadTenOnes(k: nat, r: string, p: nat)
    requires 8 <= p <= 9 && UnitsTail(r)
    ensures ReadFrom(Repeat('X', k) + r, p) == Prefixed(seq(k, _ => 15), ReadFrom(r, 16))
  {
    var s := Repeat('X', k) + r;
    if k == 0 {
      assert s == r;
      TensSkipTail(r, p);
      assert seq(k, _ => 15) + ReadFrom(r, 16).picks == ReadFrom(r, 16).picks;
    } else {
      forall j | p <= j < 15
        ensures !(NumeralOptions[j] <= s)
      {
        if j == 13 && k == 1 {
          assert s == ['X'] + r;
          if NumeralOptions[j] <= s {
            PrefixTail(NumeralOptions[j], 'X', r);
          }
        } else if j == 8 || j == 11 || j == 13 {
          assert |s| == 1 || s[1] == 'X' || s[1] == r[0];
          DiffersAt(NumeralOptions[j], s, 1);
        } else {
          DiffersAt(NumeralOptions[j], s, 0);
        }
      }
      ReadSkipTo(s, p, 15);
      ReadRepeat(15, 'X', k, r);
      TensSkipTail(r, 15);
    }
  }

  /** Tens digit 9, XC. */
  lemma ReadTenNine(r: string)
    requires UnitsTail(r)
    ensures ReadFrom("XC" + r, 8) == Prefixed([8], ReadFrom(r, 16))
  {
    var s := "XC" + r;
    ReadTake(s, 8);
    assert s[2..] == r;
    TensSkipTail(r, 9);
  }

  /** Tens digit 4, XL. */
  lemma ReadTenFour(r: string)
    requires UnitsTail(r)
    ensures ReadFrom("XL" + r, 8) == Prefixed([11], ReadFrom(r, 16))
  {
    var s := "XL" + r;
    forall j | 8 <= j < 11
      ensures !(NumeralOptions[j] <= s)
    {
      DiffersAt(NumeralOptions[j], s, if j == 8 then 1 else 0);
    }
    ReadSkipTo(s, 8, 11);
    ReadTake(s, 11);
    assert s[2..] == r;
    TensSkipTail(r, 12);
  }

  /** Tens digits 5 to 8, L and then `k` X's. */
  lemma ReadTenHigh(k: nat, r: string)
    requires UnitsTail(r)
    ensures ReadFrom("L" + (Repeat('X', k) + r), 8) == Prefixed([9] + seq(k, _ => 15), ReadFrom(r, 16))
  {
    var s := "L" + (Repeat('X', k) + r);
    DiffersAt(NumeralOptions[8], s, 0);
    ReadSkip(s, 8);
    ReadTake(s, 9);
    assert s[1..] == Repeat('X', k) + r;
    ReadTenOnes(k, r, 9);
    PrefixedTwice([9], seq(k, _ => 15), ReadFrom(r, 16));
  }

  /** The tens digit is read from the first tens option, and the loop
      reaches the units options with the units still unread. */
  lemma ReadTens(c: nat, r: string)
    requires c < 10 && UnitsTail(r)
    ensures ReadFrom(RomanDigit(c, 'X', 'L', 'C') + r, 8) == Prefixed(PlacePicks(8, 9, 11, 15, c), ReadFrom(r, 16))
  {
    if c == 9 {
      ReadTenNine(r);
    } else if c == 4 {
      ReadTenFour(r);
    } else if c >= 5 {
      ReadTenHigh(c - 5, r);
      assert RomanDigit(c, 'X', 'L', 'C') + r == "L" + (Repeat('X', c - 5) + r);
    } else {
      ReadTenOnes(c, r, 8);
    }
  }

  /** After the hundreds place, the tens options are reached with nothing consumed. */
  lemma HundredsSkipTail(r: string, p: nat)
    requires 1 <= p <= 8 && HundredsTail(r)
    ensures ReadFrom(r, p) == ReadFrom(r, 8)
  {
    forall j | p <= j < 8
      ensures !(NumeralOptions[j] <= r)
    {
      DiffersAt(NumeralOptions[j], r, 0);
    }
    ReadSkipTo(r, p, 8);
  }

  /** A run of C's before the tens is read by the one-letter option C. */
  lemma ReadHundredOnes(k: nat, r: string, p: nat)
    requires 1 <= p <= 2 && HundredsTail(r)
    ensures ReadFrom(Repeat('C', k) + r, p) == Prefixed(seq(k, _ => 7), ReadFrom(r, 8))
  {
    var s := Repeat('C', k) + r;
    if k == 0 {
      assert s == r;
      HundredsSkipTail(r, p);
      assert seq(k, _ => 7) + ReadFrom(r, 8).picks == ReadFrom(r, 8).picks;
    } else {
      forall j | p <= j < 7
        ensures !(NumeralOptions[j] <= s)
      {
        if j == 1 || j == 4 {
          assert |s| == 1 || s[1] == 'C' || s[1] == r[0];
          DiffersAt(NumeralOptions[j], s, 1);
        } else {
          DiffersAt(NumeralOptions[j], s, 0);
        }
      }
      ReadSkipTo(s, p, 7);
      ReadRepeat(7, 'C', k, r);
      HundredsSkipTail(r, 7);
    }
  }

  /** Hundreds digit 9, CM. */
  lemma ReadHundredNine(r: string)
    requires HundredsTail(r)
    ensures ReadFrom("CM" + r, 1) == Prefixed([1], ReadFrom(r, 8))
  {
    var s := "CM" + r;
    ReadTake(s, 1);
    assert s[2..] == r;
    HundredsSkipTail(r, 2);
  }

  /** Hundreds digit 4, CD. */
  lemma ReadHundredFour(r: string)
    requires HundredsTail(r)
    ensures ReadFrom("CD" + r, 1) == Prefixed([4], ReadFrom(r, 8))
  {
    var s := "CD" + r;
    forall j | 1 <= j < 4
      ensures !(NumeralOptions[j] <= s)
    {
      DiffersAt(NumeralOptions[j], s, if j == 1 then 1 else 0);
    }
    ReadSkipTo(s, 1, 4);
    ReadTake(s, 4);
    assert s[2..] == r;
    HundredsSkipTail(r, 5);
  }

  /** Hundreds digits 5 to 8, D and then `k` C's. */
  lemma ReadHundredHigh(k: nat, r: string)
    requires HundredsTail(r)
    ensures ReadFrom("D" + (Repeat('C', k) + r), 1) == Prefixed([2] + seq(k, _ => 7), ReadFrom(r, 8))
  {
    var s := "D" + (Repeat('C', k) + r);
    DiffersAt(NumeralOptions[1], s, 0);
    ReadSkip(s, 1);
    ReadTake(s, 2);
    assert s[1..] == Repeat('C', k) + r;
    ReadHundredOnes(k, r, 2);
    PrefixedTwice([2], seq(k, _ => 7), ReadFrom(r, 8));
  }

  /** The hundreds digit is read from the first hundreds option, and the
      loop reaches the tens options with the rest unread. */
  lemma ReadHundreds(b: nat, r: string)
    requires b < 10 && HundredsTail(r)
    ensures ReadFrom(RomanDigit(b, 'C', 'D', 'M') + r, 1) == Prefixed(PlacePicks(1, 2, 4, 7, b), ReadFrom(r, 8))
  {
    if b == 9 {
      ReadHundredNine(r);
    } else if b == 4 {
      ReadHundredFour(r);
    } else if b >= 5 {
      ReadHundredHigh(b - 5, r);
      assert RomanDigit(b, 'C', 'D', 'M') + r == "D" + (Repeat('C', b - 5) + r);
    } else {
      ReadHundredOnes(b, r, 1);
    }
  }

  /** The thousands are read by the first option, M, and the loop reaches
      the hundreds options with the rest unread. */
  lemma ReadThousands(a: nat, r: string)
    requires r == [] || r[0] != 'M'
    ensures ReadFrom(Repeat('M', a) + r, 0) == Prefixed(seq(a, _ => 0), ReadFrom(r, 1))
  {
    ReadRepeat(0, 'M', a, r);
    if r == [] {
      ReadEmpty(0);
      ReadEmpty(1);
    } else {
      DiffersAt(NumeralOptions[0], r, 0);
      ReadSkip(r, 0);
    }
  }

  /** A units digit may follow the tens. */
  lemma UnitsDigitIsTail(d: nat)
    requires d < 10
    ensures UnitsTail(RomanDigit(d, 'I', 'V', 'X'))
  {
    var u := RomanDigit(d, 'I', 'V', 'X');
    if d == 9 || d == 4 {
      DiffersAt("IIX", u, 1);
    } else if d >= 5 {
      DiffersAt("IIX", u, 0);
    } else {
      DiffersAt("IIX", u, 2);
    }
  }

  /** Tens and units may follow the hundreds, and hundreds, tens and units
      may follow the thousands. */
  lemma LowerDigitsAreTails(b: nat, c: nat, d: nat)
    requires b < 10 && c < 10 && d < 10
    ensures HundredsTail(RomanDigit(c, 'X', 'L', 'C') + RomanDigit(d, 'I', 'V', 'X'))
    ensures var r := BelowThousand(b, c, d); r == [] || r[0] != 'M'
  {
  }

  /** The loop reads a numeral in place-value notation completely, picking
      the options of each place in turn. */
  lemma ReadPlaceValue(a: nat, b: nat, c: nat, d: nat)
    requires b < 10 && c < 10 && d < 10
    ensures ReadFrom(PlaceValue(a, b, c, d), 0)
         == Scan(seq(a, _ => 0) + (PlacePicks(1, 2, 4, 7, b) + (PlacePicks(8, 9, 11, 15, c) + PlacePicks(16, 17, 18, 19, d))), [])
  {
    var h, t, u := RomanDigit(b, 'C', 'D', 'M'), RomanDigit(c, 'X', 'L', 'C'), RomanDigit(d, 'I', 'V', 'X');
    LowerDigitsAreTails(b, c, d);
    UnitsDigitIsTail(d);
    ReadThousands(a, h + (t + u));
    ReadHundreds(b, t + u);
    ReadTens(c, u);
    ReadUnits(d);
  }

  /** `k` picks of one symbol are worth `k` times its value. */
  lemma {:induction false} WorthRepeat(vals: map<string, nat>, tab: seq<string>, p: nat, k: nat)
    requires p < |tab| && tab[p] in vals
    ensures ValuedPicks(vals, tab, seq(k, _ => p))
    ensures Worth(vals, tab, seq(k, _ => p)) == k * vals[tab[p]]
    decreases k
  {
    if k > 0 {
      WorthRepeat(vals, tab, p, k - 1);
      assert seq(k, _ => p)[1..] == seq(k - 1, _ => p);
      MultipleStep(k, vals[tab[p]], 0);
    }
  }

  /** The options picked for a digit of a place are worth the digit times the place. */
  lemma WorthPlace(vals: map<string, nat>, tab: seq<string>, nine: nat, five: nat, four: nat, one: nat, u: nat, d: nat)
    requires PlaceOptions(vals, tab, nine, five, four, one, u) && d < 10
    ensures ValuedPicks(vals, tab, PlacePicks(nine, five, four, one, d))
    ensures Worth(vals, tab, PlacePicks(nine, five, four, one, d)) == d * u
  {
    if 5 <= d < 9 {
      WorthRepeat(vals, tab, one, d - 5);
      PrependWorth(vals, tab, five, seq(d - 5, _ => one));
      FiveAndMore(d, u, 0);
    } else if d < 4 {
      WorthRepeat(vals, tab, one, d);
    }
  }

  /** The thousands option and the options of the three places, with their values. */
  lemma OptionPlaces()
    ensures 0 < |NumeralOptions| && NumeralOptions[0] in Values && Values[NumeralOptions[0]] == 1000
    ensures PlaceOptions(Values, NumeralOptions, 1, 2, 4, 7, 100)
    ensures PlaceOptions(Values, NumeralOptions, 8, 9, 11, 15, 10)
    ensures PlaceOptions(Values, NumeralOptions, 16, 17, 18, 19, 1)
  {
    HundredsValues();
    HundredsOptions();
    TensOptions();
    UnitsOptions();
  }

  /** CM, D, CD and C are options 1, 2, 4 and 7. */
  lemma HundredsOptions()
    ensures PlaceOptions(Values, NumeralOptions, 1, 2, 4, 7, 100)
  {
    HundredsValues();
  }

  /** XC, L, XL and X are options 8, 9, 11 and 15. */
  lemma TensOptions()
    ensures PlaceOptions(Values, NumeralOptions, 8, 9, 11, 15, 10)
  {
    TensValues();
  }

  /** IX, V, IV and I are options 16 to 19. */
  lemma UnitsOptions()
    ensures PlaceOptions(Values, NumeralOptions, 16, 17, 18, 19, 1)
  {
    UnitsValues();
  }

  /** The options picked for a place-value numeral are worth its number. */
  lemma WorthPlaceValue(a: nat, b: nat, c: nat, d: nat)
    requires b < 10 && c < 10 && d < 10
    ensures var picks := seq(a, _ => 0) + (PlacePicks(1, 2, 4, 7, b) + (PlacePicks(8, 9, 11, 15, c) + PlacePicks(16, 17, 18, 19, d)));
            ValuedPicks(Values, NumeralOptions, picks) && Worth(Values, NumeralOptions, picks) == 1000 * a + 100 * b + 10 * c + d
  {
    OptionPlaces();
    WorthPlaces(Values, NumeralOptions, a, b, c, d);
  }

  /** The thousands and the three places of a table laid out like the
      option list are worth the number they spell. */
  lemma WorthPlaces(vals: map<string, nat>, tab: seq<string>, a: nat, b: nat, c: nat, d: nat)
    requires 0 < |tab| && tab[0] in vals && vals[tab[0]] == 1000
    requires PlaceOptions(vals, tab, 1, 2, 4, 7, 100)
    requires PlaceOptions(vals, tab, 8, 9, 11, 15, 10)
    requires PlaceOptions(vals, tab, 16, 17, 18, 19, 1)
    requires b < 10 && c < 10 && d < 10
    ensures var picks := seq(a, _ => 0) + (PlacePicks(1, 2, 4, 7, b) + (PlacePicks(8, 9, 11, 15, c) + PlacePicks(16, 17, 18, 19, d)));
            ValuedPicks(vals, tab, picks) && Worth(vals, tab, picks) == 1000 * a + 100 * b + 10 * c + d
  {
    var h, t, u := PlacePicks(1, 2, 4, 7, b), PlacePicks(8, 9, 11, 15, c), PlacePicks(16, 17, 18, 19, d);
    WorthRepeat(vals, tab, 0, a);
    WorthPlace(vals, tab, 1, 2, 4, 7, 100, b);
    WorthPlace(vals, tab, 8, 9, 11, 15, 10, c);
    WorthPlace(vals, tab, 16, 17, 18, 19, 1, d);
    WorthAppend(vals, tab, t, u);
    WorthAppend(vals, tab, h, t + u);
    WorthAppend(vals, tab, seq(a, _ => 0), h + (t + u));
  }

  /** The first letter of every picked symbol appears in the spelled text. */
  lemma {:induction false} SpellHasFirstLetter(tab: seq<string>, picks: seq<nat>, i: nat)
    requires NonEmptySymbols(tab) && ValidPicks(tab, picks) && i < |picks|
    ensures exists k :: 0 <= k < |Spell(tab, picks)| && Spell(tab, picks)[k] == tab[picks[i]][0]
    decreases i
  {
    var head := tab[picks[0]];
    var tail := Spell(tab, picks[1..]);
    assert Spell(tab, picks) == head + tail;
    if i == 0 {
      assert (head + tail)[0] == head[0];
    } else {
      SpellHasFirstLetter(tab, picks[1..], i - 1);
      var k :| 0 <= k < |tail| && tail[k] == tab[picks[1..][i - 1]][0];
      assert (head + tail)[|head| + k] == tail[k];
    }
  }

  /** The medieval options O, F, P, G and Q are never read: their letters
      are refused before the loop runs, and the loop only reads letters of
      its text. */
  lemma MedievalOptionsNeverRead(s: string)
    requires !ContainsNonRoman(s)
    ensures forall i :: 0 <= i < |Read(s).picks| ==> NumeralOptions[Read(s).picks[i]] !in ["O", "F", "P", "G", "Q"]
  {
    var sc := Read(s);
    OptionsAreKnown();
    ReadSound(s);
    forall i | 0 <= i < |sc.picks|
      ensures NumeralOptions[sc.picks[i]] !in ["O", "F", "P", "G", "Q"]
    {
      var option := NumeralOptions[sc.picks[i]];
      SpellHasFirstLetter(NumeralOptions, sc.picks, i);
      var spelled := Spell(NumeralOptions, sc.picks);
      var k :| 0 <= k < |spelled| && spelled[k] == option[0];
      assert s[k] == spelled[k];
      assert s[k] !in NonRomanNumerals;
    }
  }
}
