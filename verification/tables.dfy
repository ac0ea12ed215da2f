/**
  The constant tables of the Roman numeral converter: the value of every
  known symbol, the ordered option list the decoder walks, the two ordered
  symbol lists the encoder walks, and the letters the decoder refuses.
  The model fixes every table at its initial contents.
 */
module Tables {

  /** The two notations the encoder supports. */
  datatype Notation = Subtractive | Additive

  /** The literal returned for zero and accepted (in any case) for zero. */
  const Nulla: string := "NULLA"

  /** Largest number the integer constructor accepts. */
  const MaxNumber: int := 4000

  /** Every symbol the converter knows, with its value. */
  const Values: map<string, nat> := ValueTable()

  /** The table behind `Values`. The last five symbols are medieval and
      renaissance alternatives. */
  function ValueTable(): map<string, nat>
  {
    map[
      "I" := 1, "IV" := 4, "V" := 5, "IX" := 9, "X" := 10,
      "XIIX" := 18, "IIXX" := 18, "XL" := 40, "L" := 50, "XC" := 90,
      "C" := 100, "CD" := 400, "D" := 500, "CM" := 900, "M" := 1000,
      "O" := 11, "F" := 40, "P" := 400, "G" := 400, "Q" := 500
    ]
  }

  /** The symbols the decoder tries, in the order it tries them. */
  const NumeralOptions: seq<string> :=
    ["M", "CM", "D", "Q", "CD", "P", "G", "C", "XC", "L",
     "F", "XL", "IIXX", "XIIX", "O", "X", "IX", "V", "IV", "I"]

  /** The symbols the encoder uses in subtractive notation, highest first. */
  const SubtractiveNotation: seq<string> :=
    ["M", "CM", "D", "CD", "C", "XC", "L", "XL", "X", "IX", "V", "IV", "I"]

  /** The symbols the encoder uses in additive notation, highest first. */
  const AdditiveNotation: seq<string> := ["M", "D", "C", "L", "X", "V", "I"]

  /** The one-letter strings whose presence makes the decoder refuse its
      input, each written here as its single letter. */
  const NonRomanNumerals: seq<char> :=
    ['A', 'B', 'E', 'F', 'G', 'H', 'J', 'K', 'N', 'O',
     'P', 'Q', 'R', 'S', 'T', 'U', 'W', 'Y', 'Z']

  /** The seven letters of classical Roman numerals. */
  const RomanLetters: seq<char> := ['M', 'D', 'C', 'L', 'X', 'V', 'I']

  /** The symbol list the encoder walks for a notation. */
  function NotationList(notation: Notation): seq<string>
  {
    match notation
    case Subtractive => SubtractiveNotation
    case Additive => AdditiveNotation
  }

  /** A symbol list the greedy encoder can walk with the value table
      `vals`: every symbol is known and non-empty, every value is positive,
      and the list ends in a single letter worth 1, so the walk can always
      finish. */
  predicate EncodableList(vals: map<string, nat>, tab: seq<string>)
  {
    && |tab| > 0
    && KnownSymbols(vals, tab)
    && |tab[|tab| - 1]| == 1
    && vals[tab[|tab| - 1]] == 1
  }

  /** Every symbol of the list is spelled with the seven classical letters. */
  predicate RomanSpelled(tab: seq<string>)
  {
    forall i :: 0 <= i < |tab| ==> forall j :: 0 <= j < |tab[i]| ==> tab[i][j] in RomanLetters
  }

  lemma SubtractiveListWellFormed()
    ensures EncodableList(Values, SubtractiveNotation) && RomanSpelled(SubtractiveNotation)
  {
    HundredsValues();
    TensValues();
    UnitsValues();
    SubtractiveLetters();
  }

  /** The subtractive symbols are spelled with classical letters. */
  lemma SubtractiveLetters()
    ensures |SubtractiveNotation| == 13 && NonEmptySymbols(SubtractiveNotation)
    ensures RomanSpelled(SubtractiveNotation)
  {
  }

  /** The values of the thousands and hundreds symbols. */
  lemma HundredsValues()
    ensures "M" in Values && Values["M"] == 1000
    ensures "CM" in Values && Values["CM"] == 900
    ensures "D" in Values && Values["D"] == 500
    ensures "CD" in Values && Values["CD"] == 400
    ensures "C" in Values && Values["C"] == 100
  {
  }

  /** The values of the tens symbols. */
  lemma TensValues()
    ensures "XC" in Values && Values["XC"] == 90
    ensures "L" in Values && Values["L"] == 50
    ensures "XL" in Values && Values["XL"] == 40
    ensures "X" in Values && Values["X"] == 10
  {
  }

  /** The values of the units symbols. */
  lemma UnitsValues()
    ensures "IX" in Values && Values["IX"] == 9
    ensures "V" in Values && Values["V"] == 5
    ensures "IV" in Values && Values["IV"] == 4
    ensures "I" in Values && Values["I"] == 1
  {
  }

  /** The values of the two spellings of 18 and of the medieval symbols. */
  lemma OtherValues()
    ensures "XIIX" in Values && Values["XIIX"] == 18
    ensures "IIXX" in Values && Values["IIXX"] == 18
    ensures "O" in Values && Values["O"] == 11
    ensures "F" in Values && Values["F"] == 40
    ensures "P" in Values && Values["P"] == 400
    ensures "G" in Values && Values["G"] == 400
    ensures "Q" in Values && Values["Q"] == 500
  {
  }

  lemma AdditiveListWellFormed()
    ensures EncodableList(Values, AdditiveNotation) && RomanSpelled(AdditiveNotation)
    ensures forall i :: 0 <= i < |AdditiveNotation| ==> |AdditiveNotation[i]| == 1
  {
    AdditiveValues();
    assert Values["I"] == 1;
    AdditiveLetters();
  }

  /** The additive symbols are the seven classical letters, one each. */
  lemma AdditiveLetters()
    ensures forall i :: 0 <= i < |AdditiveNotation| ==> |AdditiveNotation[i]| == 1
    ensures RomanSpelled(AdditiveNotation)
  {
  }

  /** Every additive symbol but the final I is worth at least five. */
  lemma AdditiveValues()
    ensures |AdditiveNotation| == 7 && AdditiveNotation[6] == "I"
    ensures forall j :: 0 <= j < 6 ==> AdditiveNotation[j] in Values && Values[AdditiveNotation[j]] >= 5
  {
    HundredsValues();
    TensValues();
    UnitsValues();
  }

  /** Both notation lists can be walked by the encoder and use only the
      seven classical letters. */
  lemma NotationListsWellFormed(notation: Notation)
    ensures EncodableList(Values, NotationList(notation)) && RomanSpelled(NotationList(notation))
  {
    match notation
    case Subtractive => SubtractiveListWellFormed();
    case Additive => AdditiveListWellFormed();
  }

  /** Every decoding option is a known, non-empty symbol with a positive value. */
  lemma OptionsAreKnown()
    ensures |NumeralOptions| == 20
    ensures KnownSymbols(Values, NumeralOptions)
  {
    HundredsValues();
    TensValues();
    UnitsValues();
    OtherValues();
    OptionLetters();
  }

  /** No classical letter is a refused letter. */
  lemma RomanLettersNotRefused()
    ensures forall c :: c in RomanLetters ==> c !in NonRomanNumerals
  {
  }

  /** Every known symbol has one, two or four letters. */
  lemma SymbolLengths()
    ensures forall k :: k in Values ==> |k| == 1 || |k| == 2 || |k| == 4
  {
  }

  /** The decoding options are twenty non-empty symbols. */
  lemma OptionLetters()
    ensures |NumeralOptions| == 20 && NonEmptySymbols(NumeralOptions)
  {
  }

  /** Every symbol of the list has at least one letter. */
  predicate NonEmptySymbols(tab: seq<string>)
  {
    forall i :: 0 <= i < |tab| ==> |tab[i]| > 0
  }

  /** A symbol list whose symbols are all non-empty, known to the value
      table and worth something. */
  predicate KnownSymbols(vals: map<string, nat>, tab: seq<string>)
  {
    && NonEmptySymbols(tab)
    && forall i :: 0 <= i < |tab| ==> tab[i] in vals && vals[tab[i]] > 0
  }

  /** Picks are positions in a symbol list. */
  predicate ValidPicks(tab: seq<string>, picks: seq<nat>)
  {
    forall i :: 0 <= i < |picks| ==> picks[i] < |tab|
  }

  /** Picks of symbols that the value table knows. */
  predicate ValuedPicks(vals: map<string, nat>, tab: seq<string>, picks: seq<nat>)
  {
    && ValidPicks(tab, picks)
    && forall i :: 0 <= i < |picks| ==> tab[picks[i]] in vals
  }

  /** The text written by a sequence of picks: their symbols, concatenated. */
  function Spell(tab: seq<string>, picks: seq<nat>): string
    requires ValidPicks(tab, picks)
  {
    if picks == [] then [] else tab[picks[0]] + Spell(tab, picks[1..])
  }

  /** The value of a sequence of picks: the sum of their symbols' values. */
  function Worth(vals: map<string, nat>, tab: seq<string>, picks: seq<nat>): nat
    requires ValuedPicks(vals, tab, picks)
  {
    if picks == [] then 0 else vals[tab[picks[0]]] + Worth(vals, tab, picks[1..])
  }

  /** The order in which both greedy walks pick symbols: the position in the
      list never moves back, and it always moves on after a symbol of more
      than one letter, so such a symbol is never picked twice in a row. */
  predicate GreedyOrder(tab: seq<string>, picks: seq<nat>)
    requires ValidPicks(tab, picks)
  {
    forall i :: 0 <= i < |picks| - 1 ==>
      picks[i] <= picks[i + 1] && (|tab[picks[i]]| > 1 ==> picks[i] < picks[i + 1])
  }

  /** Spelling distributes over concatenation of picks. */
  lemma {:induction false} SpellAppend(tab: seq<string>, a: seq<nat>, b: seq<nat>)
    requires ValidPicks(tab, a) && ValidPicks(tab, b)
    ensures ValidPicks(tab, a + b)
    ensures Spell(tab, a + b) == Spell(tab, a) + Spell(tab, b)
    decreases |a|
  {
    if a == [] {
      assert a + b == b;
    } else {
      assert (a + b)[1..] == a[1..] + b;
      SpellAppend(tab, a[1..], b);
    }
  }

  /** Valuing distributes over concatenation of picks. */
  lemma {:induction false} WorthAppend(vals: map<string, nat>, tab: seq<string>, a: seq<nat>, b: seq<nat>)
    requires ValuedPicks(vals, tab, a) && ValuedPicks(vals, tab, b)
    ensures ValuedPicks(vals, tab, a + b)
    ensures Worth(vals, tab, a + b) == Worth(vals, tab, a) + Worth(vals, tab, b)
    decreases |a|
  {
    if a == [] {
      assert a + b == b;
    } else {
      assert (a + b)[1..] == a[1..] + b;
      WorthAppend(vals, tab, a[1..], b);
    }
  }

  /** Where the pointer of a greedy walk stands after a sequence of picks
      made from `ptr`: on the last pick, or just past it if that symbol has
      more than one letter. */
  function Resume(tab: seq<string>, ptr: nat, picks: seq<nat>): nat
    requires ValidPicks(tab, picks)
  {
    if picks == [] then ptr
    else
      var last := picks[|picks| - 1];
      if |tab[last]| > 1 then last + 1 else last
  }

  /** One step of a greedy walk: picking the symbol at `p` in front of a
      walk that resumed at `next` keeps the greedy order, spells the symbol
      in front, and leaves the final pointer where it was. */
  lemma PrependPick(tab: seq<string>, p: nat, next: nat, picks: seq<nat>)
    requires p < |tab|
    requires next == if |tab[p]| > 1 then p + 1 else p
    requires ValidPicks(tab, picks)
    requires forall i :: 0 <= i < |picks| ==> next <= picks[i]
    requires GreedyOrder(tab, picks)
    ensures ValidPicks(tab, [p] + picks)
    ensures forall i :: 0 <= i < |[p] + picks| ==> p <= ([p] + picks)[i]
    ensures GreedyOrder(tab, [p] + picks)
    ensures Spell(tab, [p] + picks) == tab[p] + Spell(tab, picks)
    ensures Resume(tab, p, [p] + picks) == Resume(tab, next, picks)
  {
    assert ([p] + picks)[1..] == picks;
  }

  /** A single pick is worth its symbol's value. */
  lemma WorthSingle(vals: map<string, nat>, tab: seq<string>, p: nat)
    requires p < |tab| && tab[p] in vals
    ensures ValuedPicks(vals, tab, [p])
    ensures Worth(vals, tab, [p]) == vals[tab[p]]
  {
    PrependWorth(vals, tab, p, []);
    assert [p] + [] == [p];
  }

  /** Picking a known symbol in front adds its value. */
  lemma PrependWorth(vals: map<string, nat>, tab: seq<string>, p: nat, picks: seq<nat>)
    requires p < |tab| && tab[p] in vals
    requires ValuedPicks(vals, tab, picks)
    ensures ValuedPicks(vals, tab, [p] + picks)
    ensures Worth(vals, tab, [p] + picks) == vals[tab[p]] + Worth(vals, tab, picks)
  {
    assert ([p] + picks)[1..] == picks;
  }

  /** A text spelled from a list of classical-letter symbols holds only
      classical letters, and is non-empty when something was picked. */
  lemma {:induction false} SpellIsRoman(tab: seq<string>, picks: seq<nat>)
    requires NonEmptySymbols(tab) && RomanSpelled(tab) && ValidPicks(tab, picks)
    ensures forall i :: 0 <= i < |Spell(tab, picks)| ==> Spell(tab, picks)[i] in RomanLetters
    ensures |picks| > 0 ==> |Spell(tab, picks)| > 0
    decreases |picks|
  {
    if picks != [] {
      SpellIsRoman(tab, picks[1..]);
      var head := tab[picks[0]];
      var tail := Spell(tab, picks[1..]);
      assert Spell(tab, picks) == head + tail;
      forall i | 0 <= i < |head + tail|
        ensures (head + tail)[i] in RomanLetters
      {
        if i < |head| {
          assert (head + tail)[i] == head[i];
        } else {
          assert (head + tail)[i] == tail[i - |head|];
        }
      }
    }
  }
}
