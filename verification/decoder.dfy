/**
  The decoder, `Parse`: normalise the text, refuse letters that are not
  Roman, take the exact-key fast path, refuse runs that repeat too often,
  and otherwise read the text greedily, left to right, over the option list.
 */
module Decoder {
  import opened Tables
  import opened Numerals

  // ---------------------------------------------------------------------
  // Normalisation
  // ---------------------------------------------------------------------

  predicate IsLowerAscii(c: char)
  {
    'a' <= c <= 'z'
  }

  /** Upper-cases one character (ASCII letters only). */
  function UpperChar(c: char): (u: char)
    ensures !IsLowerAscii(u)
    ensures !IsLowerAscii(c) ==> u == c
    ensures IsLowerAscii(c) ==> u as int == c as int - 32
  {
    if IsLowerAscii(c) then (c as int - 32) as char else c
  }

  /** Upper-cases a text, character by character. */
  function Upper(s: string): (r: string)
    ensures |r| == |s|
    ensures forall i :: 0 <= i < |s| ==> r[i] == UpperChar(s[i])
  {
    seq(|s|, i requires 0 <= i < |s| => UpperChar(s[i]))
  }

  /** Replaces a final 'J' by 'I'; the rest of the text is kept. */
  function ReplaceTrailingJ(s: string): (r: string)
    ensures |r| == |s|
    ensures |s| > 0 && s[|s| - 1] == 'J' ==> r == s[..|s| - 1] + "I"
    ensures !(|s| > 0 && s[|s| - 1] == 'J') ==> r == s
  {
    if |s| > 0 && s[|s| - 1] == 'J' then s[..|s| - 1] + "I" else s
  }

  /** Replaces every 'U' by 'V'. */
  function ReplaceU(s: string): (r: string)
    ensures |r| == |s|
    ensures forall i :: 0 <= i < |s| ==> r[i] == (if s[i] == 'U' then 'V' else s[i])
  {
    seq(|s|, i requires 0 <= i < |s| => if s[i] == 'U' then 'V' else s[i])
  }

  /** The text the decoder validates and reads: upper-cased, then a final
      'J' read as 'I', then every 'U' read as 'V'. The result has the same
      length, holds no lower-case ASCII letter and no 'U', and does not end
      in 'J'; every other character is kept where it was. */
  function Normalize(str: string): (s: string)
    ensures |s| == |str|
    ensures forall i :: 0 <= i < |s| ==> !IsLowerAscii(s[i]) && s[i] != 'U'
    ensures |s| > 0 ==> s[|s| - 1] != 'J'
    ensures forall i :: 0 <= i < |str| ==>
              var u := UpperChar(str[i]);
              s[i] == (if u == 'U' then 'V' else if u == 'J' && i == |str| - 1 then 'I' else u)
  {
    var upper := Upper(str);
    var r := ReplaceU(ReplaceTrailingJ(upper));
    assert forall i :: 0 <= i < |str| ==>
             ReplaceTrailingJ(upper)[i] == (if upper[i] == 'J' && i == |str| - 1 then 'I' else upper[i]);
    r
  }

  /** True when some character of the text is one of the refused letters. */
  predicate ContainsNonRoman(s: string)
  {
    exists i :: 0 <= i < |s| && s[i] in NonRomanNumerals
  }

  // ---------------------------------------------------------------------
  // Repetition rule: the matches of the pattern (.)\1+
  // ---------------------------------------------------------------------

  /** Length of the run of equal characters that starts at `i`. */
  function RunLength(s: string, i: nat): (k: nat)
    requires i < |s|
    ensures 1 <= k <= |s| - i
    ensures forall t :: i <= t < i + k ==> s[t] == s[i]
    ensures i + k == |s| || s[i + k] != s[i]
    decreases |s| - i
  {
    if i + 1 < |s| && s[i + 1] == s[i] then 1 + RunLength(s, i + 1) else 1
  }

  /** One match of the pattern: the repeated letter and the length matched. */
  datatype Match = Match(letter: char, length: nat)

  /** The matches of (.)\1+ found by scanning the text from position `i`:
      at each position the pattern matches the longest run of a character
      other than a line feed, if that run has at least two characters, and
      the scan resumes after the match; otherwise it resumes one position on. */
  function RegexMatches(s: string, i: nat): (ms: seq<Match>)
    requires i <= |s|
    ensures forall j :: 0 <= j < |ms| ==> ms[j].length >= 2 && ms[j].letter != '\n'
    decreases |s| - i
  {
    if i == |s| then []
    else
      var k := RunLength(s, i);
      if k >= 2 && s[i] != '\n' then [Match(s[i], k)] + RegexMatches(s, i + k)
      else RegexMatches(s, i + 1)
  }

  /** The letters that may never be repeated. */
  predicate NeverRepeated(c: char)
  {
    c == 'V' || c == 'L' || c == 'D'
  }

  /** A match the decoder refuses: V, L or D repeated, or any letter
      repeated more than three times. */
  predicate Offending(m: Match)
  {
    (NeverRepeated(m.letter) && m.length > 1) || m.length > 3
  }

  /** The repetition check of the decoder: some match is refused. */
  predicate HasRepeatViolation(s: string)
  {
    exists j :: 0 <= j < |RegexMatches(s, 0)| && Offending(RegexMatches(s, 0)[j])
  }

  // ---------------------------------------------------------------------
  // Greedy reading over the option list
  // ---------------------------------------------------------------------

  /** What the greedy reader consumed (as positions in the option list) and
      the text it could not consume. */
  datatype Scan = Scan(picks: seq<nat>, rest: string)

  /** No option at or after position `from` starts the text. */
  predicate NoOptionStarts(tab: seq<string>, from: nat, text: string)
  {
    forall j :: from <= j < |tab| ==> !(tab[j] <= text)
  }

  /** The priority of the options: each option consumed is the first one,
      from the pointer at that moment, that starts the text still to be
      read; after it the pointer stays, or moves on past an option of more
      than one letter. */
  predicate FirstOptions(tab: seq<string>, text: string, ptr: nat, picks: seq<nat>)
    decreases |picks|
  {
    picks == [] ||
    var p := picks[0];
    && ptr <= p < |tab|
    && tab[p] <= text
    && (forall j :: ptr <= j < p ==> !(tab[j] <= text))
    && FirstOptions(tab, text[|tab[p]|..], if |tab[p]| > 1 then p + 1 else p, picks[1..])
  }

  /** What the decoding loop promises when started on `text` at option
      pointer `ptr`: what it consumed spells the front of the text with
      known options, at or after `ptr`, in greedy order, each the first
      option from the pointer that starts the text still to be read; and if
      text is left over, no option at or after the final pointer starts it. */
  predicate ScanOf(tab: seq<string>, text: string, ptr: nat, sc: Scan)
  {
    && ValidPicks(tab, sc.picks)
    && (forall i :: 0 <= i < |sc.picks| ==> ptr <= sc.picks[i])
    && GreedyOrder(tab, sc.picks)
    && Spell(tab, sc.picks) + sc.rest == text
    && FirstOptions(tab, text, ptr, sc.picks)
    && (sc.rest != [] ==> NoOptionStarts(tab, Resume(tab, ptr, sc.picks), sc.rest))
  }

  /** Moving the pointer past an option that does not start the text keeps the promise. */
  lemma SkipStep(tab: seq<string>, text: string, ptr: nat, sc: Scan)
    requires ptr < |tab| && !(tab[ptr] <= text)
    requires ScanOf(tab, text, ptr + 1, sc)
    ensures ScanOf(tab, text, ptr, sc)
  {
    if sc.picks == [] {
      assert sc.rest == text;
    }
  }

  /** Consuming an option that starts the text keeps the promise. */
  lemma ConsumeStep(tab: seq<string>, text: string, ptr: nat, next: nat, sc: Scan)
    requires NonEmptySymbols(tab)
    requires ptr < |tab| && tab[ptr] <= text
    requires next == if |tab[ptr]| > 1 then ptr + 1 else ptr
    requires ScanOf(tab, text[|tab[ptr]|..], next, sc)
    ensures ScanOf(tab, text, ptr, Scan([ptr] + sc.picks, sc.rest))
  {
    PrependPick(tab, ptr, next, sc.picks);
    var option := tab[ptr];
    calc {
      Spell(tab, [ptr] + sc.picks) + sc.rest;
      (option + Spell(tab, sc.picks)) + sc.rest;
      option + (Spell(tab, sc.picks) + sc.rest);
      option + text[|option|..];
      text;
    }
  }

  /** The decoding loop over the option list `tab`, from option pointer
      `ptr`: if the text starts with the current option, its value is taken
      and its letters consumed, and the pointer moves on only after an
      option of more than one letter; otherwise the pointer moves on. The
      loop stops when the text is consumed or the options are exhausted.
      What it promises is stated by `GreedyScanSound`. */
  function GreedyScan(tab: seq<string>, s: string, ptr: nat): (sc: Scan)
    requires NonEmptySymbols(tab)
    ensures ValidPicks(tab, sc.picks)
    decreases |s|, |tab| - ptr
  {
    if s == [] || ptr >= |tab| then Scan([], s)
    else
      var option := tab[ptr];
      if !(option <= s) then GreedyScan(tab, s, ptr + 1)
      else
        var next := if |option| > 1 then ptr + 1 else ptr;
        var sc := GreedyScan(tab, s[|option|..], next);
        Scan([ptr] + sc.picks, sc.rest)
  }

  /** The loop keeps its promise: what it consumed spells the front of the
      text with options at or after the starting pointer, in greedy order,
      and any text it leaves over is started by no option at or after the
      pointer it stopped on. */
  lemma {:induction false} GreedyScanSound(tab: seq<string>, s: string, ptr: nat)
    requires NonEmptySymbols(tab)
    ensures ScanOf(tab, s, ptr, GreedyScan(tab, s, ptr))
    decreases |s|, |tab| - ptr
  {
    if s == [] || ptr >= |tab| {
    } else {
      var option := tab[ptr];
      if !(option <= s) {
        GreedyScanSound(tab, s, ptr + 1);
        SkipStep(tab, s, ptr, GreedyScan(tab, s, ptr + 1));
      } else {
        var next := if |option| > 1 then ptr + 1 else ptr;
        GreedyScanSound(tab, s[|option|..], next);
        ConsumeStep(tab, s, ptr, next, GreedyScan(tab, s[|option|..], next));
      }
    }
  }

  /** Picks in greedy order never move back: a later pick is at or after an earlier one. */
  lemma {:induction false} OrderedFrom(tab: seq<string>, picks: seq<nat>, k: nat, i: nat)
    requires ValidPicks(tab, picks) && GreedyOrder(tab, picks)
    requires k <= i < |picks|
    ensures picks[k] <= picks[i]
    decreases i - k
  {
    if k < i {
      OrderedFrom(tab, picks, k, i - 1);
    }
  }

  /** The loop's promise leaves no choice: the only scan that keeps it is
      the one the loop makes. */
  lemma {:induction false} ScanOfUnique(tab: seq<string>, s: string, ptr: nat, sc: Scan)
    requires NonEmptySymbols(tab)
    requires ScanOf(tab, s, ptr, sc)
    ensures sc == GreedyScan(tab, s, ptr)
    decreases |s|, |tab| - ptr
  {
    var picks := sc.picks;
    if s == [] {
      assert picks == [];
    } else if ptr >= |tab| {
      assert picks == [];
    } else if !(tab[ptr] <= s) {
      UniqueSkip(tab, s, ptr, sc);
      ScanOfUnique(tab, s, ptr + 1, sc);
    } else {
      var option := tab[ptr];
      var next := if |option| > 1 then ptr + 1 else ptr;
      UniqueTake(tab, s, ptr, sc);
      ScanOfUnique(tab, s[|option|..], next, Scan(picks[1..], sc.rest));
      TakeAgrees(tab, s, ptr, sc);
    }
  }

  /** When the option at the pointer starts the text and the scan after the
      first pick is the loop's, the whole scan is the loop's. */
  lemma TakeAgrees(tab: seq<string>, s: string, ptr: nat, sc: Scan)
    requires NonEmptySymbols(tab)
    requires s != [] && ptr < |tab| && tab[ptr] <= s && sc.picks != [] && sc.picks[0] == ptr
    requires Scan(sc.picks[1..], sc.rest) == GreedyScan(tab, s[|tab[ptr]|..], if |tab[ptr]| > 1 then ptr + 1 else ptr)
    ensures sc == GreedyScan(tab, s, ptr)
  {
    assert sc.picks == [ptr] + sc.picks[1..];
  }

  /** A scan that keeps the promise from an option that does not start the
      text keeps it from the next option too. */
  lemma UniqueSkip(tab: seq<string>, s: string, ptr: nat, sc: Scan)
    requires ptr < |tab| && s != [] && !(tab[ptr] <= s)
    requires ScanOf(tab, s, ptr, sc)
    ensures ScanOf(tab, s, ptr + 1, sc)
  {
    var picks := sc.picks;
    forall i | 0 <= i < |picks|
      ensures ptr + 1 <= picks[i]
    {
      OrderedFrom(tab, picks, 0, i);
    }
  }

  /** A scan that keeps the promise from an option that starts the text
      consumes that option first, and keeps the promise on the rest. */
  lemma UniqueTake(tab: seq<string>, s: string, ptr: nat, sc: Scan)
    requires NonEmptySymbols(tab)
    requires ptr < |tab| && tab[ptr] <= s
    requires ScanOf(tab, s, ptr, sc)
    ensures sc.picks != [] && sc.picks[0] == ptr
    ensures ScanOf(tab, s[|tab[ptr]|..], if |tab[ptr]| > 1 then ptr + 1 else ptr, Scan(sc.picks[1..], sc.rest))
  {
    var picks := sc.picks;
    assert picks != [];
    assert picks[0] == ptr;
    TailInOrder(tab, picks);
    SpellTail(tab, picks, sc.rest, s);
  }

  /** Dropping the first of a sequence of picks in greedy order leaves
      picks in greedy order at or after where the pointer went next. */
  lemma TailInOrder(tab: seq<string>, picks: seq<nat>)
    requires ValidPicks(tab, picks) && GreedyOrder(tab, picks) && picks != []
    ensures var next := if |tab[picks[0]]| > 1 then picks[0] + 1 else picks[0];
            forall i :: 0 <= i < |picks[1..]| ==> next <= picks[1..][i]
    ensures ValidPicks(tab, picks[1..]) && GreedyOrder(tab, picks[1..])
    ensures Resume(tab, if |tab[picks[0]]| > 1 then picks[0] + 1 else picks[0], picks[1..]) == Resume(tab, picks[0], picks)
  {
    var tail := picks[1..];
    forall i | 0 <= i < |tail|
      ensures picks[1] <= tail[i]
    {
      OrderedFrom(tab, picks, 1, i + 1);
    }
    forall i | 0 <= i < |tail| - 1
      ensures tail[i] <= tail[i + 1] && (|tab[tail[i]]| > 1 ==> tail[i] < tail[i + 1])
    {
      assert tail[i] == picks[i + 1] && tail[i + 1] == picks[i + 2];
    }
  }

  /** The text after the first pick's symbol is spelled by the other picks
      and what was left over. */
  lemma SpellTail(tab: seq<string>, picks: seq<nat>, rest: string, s: string)
    requires ValidPicks(tab, picks) && picks != []
    requires Spell(tab, picks) + rest == s
    ensures |tab[picks[0]]| <= |s|
    ensures Spell(tab, picks[1..]) + rest == s[|tab[picks[0]]|..]
  {
    var option := tab[picks[0]];
    assert option + (Spell(tab, picks[1..]) + rest) == s;
  }

  /** The decoding loop over `NUMERAL_OPTIONS`, from option pointer `ptr`. */
  function ReadFrom(s: string, ptr: nat): (sc: Scan)
    ensures ValuedPicks(Values, NumeralOptions, sc.picks)
  {
    OptionsAreKnown();
    GreedyScan(NumeralOptions, s, ptr)
  }

  /** The decoder's reading of a normalised text: the loop from the first option. */
  function Read(s: string): (sc: Scan)
    ensures ValuedPicks(Values, NumeralOptions, sc.picks)
  {
    ReadFrom(s, 0)
  }

  /** The decoder's reading keeps the loop's promise. */
  lemma ReadSound(s: string)
    ensures ScanOf(NumeralOptions, s, 0, Read(s))
  {
    OptionsAreKnown();
    GreedyScanSound(NumeralOptions, s, 0);
  }

  /** The decoder's reading is the one and only scan of the text that
      keeps the loop's promise from the first option. */
  lemma ReadIsOnlyScan(s: string, sc: Scan)
    ensures ScanOf(NumeralOptions, s, 0, sc) <==> sc == Read(s)
  {
    ReadSound(s);
    if ScanOf(NumeralOptions, s, 0, sc) {
      OptionsAreKnown();
      ScanOfUnique(NumeralOptions, s, 0, sc);
    }
  }

  // ---------------------------------------------------------------------
  // Parse
  // ---------------------------------------------------------------------

  /** Turns the integer constructor's outcome into a decoder outcome. */
  function Lift(r: Result<Numeral>): Result<Option<Numeral>>
  {
    match r
    case Ok(n) => Ok(Some(n))
    case Throws(e) => Throws(e)
  }

  /** The decoder's work after the fast path: the repetition check, then
      the reading loop, then the integer constructor's range check on the
      total; text the loop cannot consume gives `null`. */
  function CheckAndRead(s: string): (r: Result<Option<Numeral>>)
    ensures r.Throws? ==> r.error != NonRomanCharacter
    ensures (r.Throws? && r.error == TooManyRepeats) <==> HasRepeatViolation(s)
    ensures r == Ok(None) <==> !HasRepeatViolation(s) && Read(s).rest != []
    ensures r.Ok? && r.value.Some? ==>
              Read(s).rest == [] && r.value.value as int == Worth(Values, NumeralOptions, Read(s).picks)
    ensures (r.Throws? && r.error == OutOfRange) <==>
              !HasRepeatViolation(s) && Read(s).rest == [] && Worth(Values, NumeralOptions, Read(s).picks) > MaxNumber
  {
    if HasRepeatViolation(s) then Throws(TooManyRepeats)
    else
      var sc := Read(s);
      if sc.rest == [] then Lift(FromInt(Worth(Values, NumeralOptions, sc.picks)))
      else Ok(None)
  }

  /** `Parse(str)`: `Ok(Some(n))` is a numeral object, `Ok(None)` is the
      `null` returned when the greedy reader cannot consume the whole text,
      and `Throws(e)` is an exception. The empty text and "nulla" in any
      case are zero; a refused letter anywhere (after normalisation) is an
      error; a text that is itself a known symbol takes that symbol's value. */
  function Parse(str: string): (r: Result<Option<Numeral>>)
    ensures str == [] || Upper(str) == Nulla ==> r == Ok(Some(0))
    ensures (r.Throws? && r.error == NonRomanCharacter) <==>
              str != [] && Upper(str) != Nulla && ContainsNonRoman(Normalize(str))
    ensures str != [] && Upper(str) != Nulla && !ContainsNonRoman(Normalize(str)) && str in Values ==>
              r == Lift(FromInt(Values[str]))
    ensures str != [] && Upper(str) != Nulla && !ContainsNonRoman(Normalize(str)) && str !in Values ==>
              r == CheckAndRead(Normalize(str))
  {
    if str == [] then Ok(Some(0))
    else if Upper(str) == Nulla then Ok(Some(0))
    else
      var s := Normalize(str);
      if ContainsNonRoman(s) then Throws(NonRomanCharacter)
      else if str in Values then Lift(FromInt(Values[str]))
      else CheckAndRead(s)
  }

  /** `Parse` on a possibly-null text: `null` reads as zero, like the empty text. */
  function ParseNullable(str: Option<string>): (r: Result<Option<Numeral>>)
    ensures str.None? ==> r == Ok(Some(0))
    ensures str.Some? ==> r == Parse(str.value)
  {
    match str
    case None => Ok(Some(0))
    case Some(s) => Parse(s)
  }
}
