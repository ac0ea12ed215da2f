# Roman numerals: a verified model of `RomanNumeral`

This project models the C# class `RomanNumeral`. The class converts between
integers and Roman numerals in three parts:

- **Range-checked integer constructor.** It accepts 0..4000.
- **Encoder, `ToString(notation)`.** It walks a constant symbol list greedily.
  There are two lists: subtractive (`M, CM, D, CD, …, IV, I`) and additive
  (`M, D, C, L, X, V, I`).
- **Decoder, `Parse`.** It works in these steps:
  1. It maps the empty text and "NULLA" (in any case) to zero.
  2. It normalises the text: upper case, a final J read as I, every U read as V.
  3. It refuses letters from a blacklist.
  4. It takes a fast path when the original text is itself a key of the value table.
  5. It refuses runs that the pattern `(.)\1+` flags as too long.
  6. It reads the rest greedily over a 20-entry option list. The option list
     includes the medieval symbols O, F, P, G, Q and the two spellings of 18,
     XIIX and IIXX.

Exceptions and the `null` result of `Parse` are values of a result type:

- `Throws(OutOfRange)` is the exception from the integer constructor.
- `Throws(NonRomanCharacter)` is a refused letter.
- `Throws(TooManyRepeats)` is a run that repeats too often.
- `Ok(None)` is `null`.
- `Ok(Some(n))` is a numeral object holding `n`.

The model is split into these modules:

| module | file | contents |
|---|---|---|
| `Tables` | `tables.dfy` | The value table and the three symbol lists. Greedy picks as positions in a list, with their spelling (`Spell`), their value (`Worth`) and their order (`GreedyOrder`). |
| `Numerals` | `numerals.dfy` | The error kinds, the result type and the integer constructor. |
| `Encoder` | `encoder.dfy` | The encoding walk and `ToString`. |
| `Decoder` | `decoder.dfy` | Normalisation, the pattern scan, the greedy reading loop, and `Parse`. |
| `Digits` | `digits.dfy` | Standard place-value Roman notation. The proof that the subtractive walk writes exactly that notation. |
| `Additive` | `additive.dfy` | Additive Roman notation by division. The proof that the walk over the additive list writes exactly that notation. |
| `Reading` | `reading.dfy` | How the reading loop consumes a place-value numeral, and what it never reads. |
| `Repetition` | `repetition.dfy` | The repetition check restated as a rule on windows of the text. |
| `ReadBack` | `readback.dfy` | The round trip from 1 to 3999, the fast path, and the refusal of 4000. |
| `KnownValues` | `known_values.dfy` | The concrete values the class's tests describe. |

Some parts are general and some are concrete:

- The encoding walk and the place-value lemmas take the value table and the
  symbol list as parameters, so they hold for any table laid out the same way.
  The converter's own tables are then plugged in.
- `ToString()` without an argument uses subtractive notation, so the tests'
  calls to it appear here as `ToString(n, Subtractive)`.

## Model

| member | source | states |
|---|---|---|
| Tables.SubtractiveListWellFormed | RomanNumeralsTest/RomanNumeral/RomanNumeral/RomanNumeral.cs:49-52 | Every subtractive symbol is a key of the value table with a positive value. The list ends in the one-letter I worth 1, and uses only the seven classical letters. |
| Tables.AdditiveListWellFormed | RomanNumeralsTest/RomanNumeral/RomanNumeral/RomanNumeral.cs:55-58 | The additive list is the seven classical letters, one letter each, all known with positive values, ending in I worth 1. |
| Tables.AdditiveValues | RomanNumeralsTest/RomanNumeral/RomanNumeral/RomanNumeral.cs:55-58 | Every additive symbol before the final I is worth at least 5. |
| Tables.OptionsAreKnown | RomanNumeralsTest/RomanNumeral/RomanNumeral/RomanNumeral.cs:43-46 | The option list has 20 entries. Each is a non-empty key of the value table with a positive value, so the lookup in the reading loop never fails. |
| Tables.HundredsValues | RomanNumeralsTest/RomanNumeral/RomanNumeral/RomanNumeral.cs:28-32 | M, CM, D, CD, C are worth 1000, 900, 500, 400, 100. |
| Tables.TensValues | RomanNumeralsTest/RomanNumeral/RomanNumeral/RomanNumeral.cs:22-27 | XC, L, XL, X are worth 90, 50, 40, 10. |
| Tables.UnitsValues | RomanNumeralsTest/RomanNumeral/RomanNumeral/RomanNumeral.cs:18-22 | IX, V, IV, I are worth 9, 5, 4, 1. |
| Tables.OtherValues | RomanNumeralsTest/RomanNumeral/RomanNumeral/RomanNumeral.cs:23-39 | XIIX and IIXX are worth 18. O, F, P, G, Q are worth 11, 40, 400, 400, 500. |
| Tables.SymbolLengths | RomanNumeralsTest/RomanNumeral/RomanNumeral/RomanNumeral.cs:16-40 | Every key of the value table has one, two or four letters. |
| Tables.RomanLettersNotRefused | RomanNumeralsTest/RomanNumeral/RomanNumeral/RomanNumeral.cs:71 | No classical letter is on the refused-letter list. |
| Tables.PrependPick | RomanNumeralsTest/RomanNumeral/RomanNumeral/RomanNumeral.cs:143-148 | Taking a symbol in front of a walk that resumes where the greedy step puts the cursor keeps the greedy order. After a multi-letter symbol the cursor has moved on. |
| Numerals.FromInt | RomanNumeralsTest/RomanNumeral/RomanNumeral/RomanNumeral.cs:89-98 | The constructor succeeds exactly when 0 <= n <= 4000 and then stores n unchanged. Otherwise it raises the out-of-range error. |
| Encoder.EncodeFrom | RomanNumeralsTest/RomanNumeral/RomanNumeral/RomanNumeral.cs:124-153 | The walk reads the list only while value is non-zero. Its recursive calls' preconditions show it never reads past the end of the list. Every symbol it writes is a key of the value table. |
| Encoder.EncodeFromWalk | RomanNumeralsTest/RomanNumeral/RomanNumeral/RomanNumeral.cs:129-153 | The symbols written from position `pos` lie at or after `pos`. They are worth exactly the starting value, and they come in greedy order, so no multi-letter symbol is written twice in a row. |
| Encoder.Encode | RomanNumeralsTest/RomanNumeral/RomanNumeral/RomanNumeral.cs:110-153 | For a non-zero numeral, the picks from the chosen notation's list are non-empty, in greedy order, and sum to the numeral. Which symbols are picked is pinned by `Digits.ToStringIsStandard` and `Additive.ToStringIsAdditive`. |
| Encoder.ToString | RomanNumeralsTest/RomanNumeral/RomanNumeral/RomanNumeral.cs:102-156 | The result is "NULLA" exactly when the number is 0. Otherwise it is a non-empty text of classical letters. |
| Encoder.EncodeSkipTo | RomanNumeralsTest/RomanNumeral/RomanNumeral/RomanNumeral.cs:135-151 | The walk passes over every symbol worth more than what is left to write. |
| Encoder.EncodeRepeat | RomanNumeralsTest/RomanNumeral/RomanNumeral/RomanNumeral.cs:135-149 | A one-letter symbol worth u, facing k*u + r with r < u, is written exactly k times before the walk moves on with r. |
| Digits.EncodePlace | RomanNumeralsTest/RomanNumeral/RomanNumeral/RomanNumeral.cs:129-153 | Over one decimal place of the subtractive list (nine, five, four, one), the walk for d*u + r picks that digit's symbols, then moves to the next place with r. |
| Digits.EncodeDigit | RomanNumeralsTest/RomanNumeral/RomanNumeral/RomanNumeral.cs:129-153 | The text written over one place is the standard Roman digit, followed by the text written for the remainder. |
| Digits.EncodeIsPlaceValue | RomanNumeralsTest/RomanNumeral/RomanNumeral/RomanNumeral.cs:121-153 | For every positive n, the subtractive walk spells the independent place-value numeral of n: thousands as M's, then the hundreds, tens and units digits. |
| Digits.ToStringIsStandard | RomanNumeralsTest/RomanNumeral/RomanNumeral/RomanNumeral.cs:102-156 | `ToString` in subtractive notation equals the place-value numeral of every positive number. |
| Additive.EncodeDivide | RomanNumeralsTest/RomanNumeral/RomanNumeral/RomanNumeral.cs:135-151 | Over a one-letter symbol worth u, the walk for w writes the letter w / u times, then goes on from the next symbol with w % u. |
| Additive.EncodeAdditiveFrom | RomanNumeralsTest/RomanNumeral/RomanNumeral/RomanNumeral.cs:129-153 | Over a list of one-letter symbols laid out like a list of letters and positive worths, the walk from any position writes exactly the division-based additive notation of the letters from there on. |
| Additive.EncodeAdditive | RomanNumeralsTest/RomanNumeral/RomanNumeral/RomanNumeral.cs:129-153 | Over a list laid out like M, D, C, L, X, V, I worth 1000, 500, 100, 50, 10, 5, 1, the walk writes every number in additive notation: each letter as often as it fits in what the larger ones left, with no subtractive pair. |
| Additive.AdditiveNotationLayout | RomanNumeralsTest/RomanNumeral/RomanNumeral/RomanNumeral.cs:55-58 | The additive list is the seven classical letters, one symbol each, at their values in the value table. |
| Additive.AdditiveUnits | RomanNumeralsTest/RomanNumeral/RomanNumeral/RomanNumeral.cs:55-58 | Below ten, additive notation over the letters of the additive list is v / 5 V's followed by v % 5 I's, so no unit is ever written as IV or IX. |
| Additive.ToStringIsAdditive | RomanNumeralsTest/RomanNumeral/RomanNumeral/RomanNumeral.cs:102-156 | `ToString` in additive notation equals the independent additive notation of every positive numeral, so 9 is VIIII and 40 is XXXX. |
| Decoder.Normalize | RomanNumeralsTest/RomanNumeral/RomanNumeral/RomanNumeral.cs:173-184 | The normalised text has the same length and holds no lower-case ASCII letter and no U. It does not end in J. Each character is the upper-cased input character, with U read as V and a final J read as I. |
| Decoder.RegexMatches | RomanNumeralsTest/RomanNumeral/RomanNumeral/RomanNumeral.cs:196 | Every match of `(.)\1+` repeats a character other than a line feed at least twice. |
| Decoder.GreedyScan | RomanNumeralsTest/RomanNumeral/RomanNumeral/RomanNumeral.cs:211-237 | The reading loop terminates on a measure of the text length and the option pointer. It picks only positions in the option list. |
| Decoder.SkipStep | RomanNumeralsTest/RomanNumeral/RomanNumeral/RomanNumeral.cs:220-224 | Moving the pointer past an option that does not start the text keeps the loop's invariant. |
| Decoder.ConsumeStep | RomanNumeralsTest/RomanNumeral/RomanNumeral/RomanNumeral.cs:226-236 | Consuming an option that starts the text keeps the loop's invariant. |
| Decoder.GreedyScanSound | RomanNumeralsTest/RomanNumeral/RomanNumeral/RomanNumeral.cs:208-237 | The options consumed spell the front of the text. They lie at or after the starting pointer, and the pointer never moves back. A multi-letter option is never consumed twice in a row. Each option consumed is the first one, from the pointer at that moment, that starts the text still to be read. Any text left over is started by no option at or after the final pointer. |
| Decoder.ReadSound | RomanNumeralsTest/RomanNumeral/RomanNumeral/RomanNumeral.cs:208-237 | The same promise for the decoder's own loop over the option list from its first entry. |
| Decoder.ScanOfUnique | RomanNumeralsTest/RomanNumeral/RomanNumeral/RomanNumeral.cs:208-237 | The promise leaves no choice: any scan that keeps it, with option priority, is the scan the loop makes. The order of the option list therefore decides the reading. |
| Decoder.ReadIsOnlyScan | RomanNumeralsTest/RomanNumeral/RomanNumeral/RomanNumeral.cs:208-237 | A scan keeps the loop's promise over the option list from its first entry exactly when it is the decoder's reading. |
| Decoder.CheckAndRead | RomanNumeralsTest/RomanNumeral/RomanNumeral/RomanNumeral.cs:195-245 | After the fast path: the repetition error exactly when some match is refused. `null` exactly when text is left over. The range error exactly when the consumed options sum past 4000. Otherwise the sum of the consumed options. |
| Decoder.Parse | RomanNumeralsTest/RomanNumeral/RomanNumeral/RomanNumeral.cs:168-246 | The empty text and "nulla" in any case give 0. The non-Roman error occurs exactly when the normalised text holds a refused letter. A text that is itself a key takes that key's value through the constructor. Every other text goes to the repetition check and the loop on its normal form. |
| Decoder.ParseNullable | RomanNumeralsTest/RomanNumeral/RomanNumeral/RomanNumeral.cs:170-171 | A null text reads as 0, like the empty text. |
| Repetition.RunWindows | RomanNumeralsTest/RomanNumeral/RomanNumeral/RomanNumeral.cs:199-204 | A matched run is refused exactly when one of its windows doubles V, L or D, or repeats a character four times. |
| Repetition.ScanFindsBadWindow | RomanNumeralsTest/RomanNumeral/RomanNumeral/RomanNumeral.cs:196-205 | From any point the scan can stand on, the scan finds a refused match exactly when some later window breaks the rule. |
| Repetition.RepeatRule | RomanNumeralsTest/RomanNumeral/RomanNumeral/RomanNumeral.cs:195-205 | The repetition check refuses a text exactly when, somewhere in it, V, L or D is doubled or a character other than a line feed appears four times in a row. |
| Reading.ReadRepeat | RomanNumeralsTest/RomanNumeral/RomanNumeral/RomanNumeral.cs:214-236 | A one-letter option repeated k times is consumed k times, and the pointer stays on it. |
| Reading.ReadSkipTo | RomanNumeralsTest/RomanNumeral/RomanNumeral/RomanNumeral.cs:220-224 | A stretch of options none of which starts the text is passed over. |
| Reading.ReadPlaceValue | RomanNumeralsTest/RomanNumeral/RomanNumeral/RomanNumeral.cs:208-237 | The loop reads a place-value numeral to the end, as its M's followed by the option picks of its hundreds, tens and units digits. |
| Reading.WorthPlaces | RomanNumeralsTest/RomanNumeral/RomanNumeral/RomanNumeral.cs:226-228 | In any table laid out like the option list, those picks sum to 1000a + 100b + 10c + d. |
| Reading.WorthPlaceValue | RomanNumeralsTest/RomanNumeral/RomanNumeral/RomanNumeral.cs:226-228 | The same sum with the converter's own option list and value table. |
| Reading.MedievalOptionsNeverRead | RomanNumeralsTest/RomanNumeral/RomanNumeral/RomanNumeral.cs:187-188 | On a text with no refused letter, the loop never consumes O, F, P, G or Q. |
| ReadBack.ClassicalTextIsNormal | RomanNumeralsTest/RomanNumeral/RomanNumeral/RomanNumeral.cs:173-188 | Normalisation leaves a text of classical letters unchanged. Such a text holds no refused letter and is not "nulla". |
| ReadBack.PlaceValueHasNoBadWindow | RomanNumeralsTest/RomanNumeral/RomanNumeral/RomanNumeral.cs:195-205 | A place-value numeral with at most three thousands passes the repetition check. |
| ReadBack.CheckAndReadPlaceValue | RomanNumeralsTest/RomanNumeral/RomanNumeral/RomanNumeral.cs:195-241 | After the fast path, a place-value numeral with at most three thousands is read as its number. |
| ReadBack.FastPathAgrees | RomanNumeralsTest/RomanNumeral/RomanNumeral/RomanNumeral.cs:190-192 | A key that passes the letter check is normal. The repetition check and the loop read it as the key's own value. |
| ReadBack.FastPathIsShortcut | RomanNumeralsTest/RomanNumeral/RomanNumeral/RomanNumeral.cs:190-192 | Past the zero cases and the letter check, `Parse` equals the repetition check and the loop on the normal form, so the fast path never changes the outcome. |
| ReadBack.CheckAndReadXIIX | RomanNumeralsTest/RomanNumeral/RomanNumeral/RomanNumeral.cs:195-241 | XIIX passes the repetition check and is read as 18. |
| ReadBack.CheckAndReadIIXX | RomanNumeralsTest/RomanNumeral/RomanNumeral/RomanNumeral.cs:195-241 | IIXX passes the repetition check and is read as 18. |
| ReadBack.RoundTrip | RomanNumeralsTest/RomanNumeral/RomanNumeralTest/RomanNumeralTest.cs:176-186 | For every n from 1 to 3999, `Parse(ToString(n))` gives back n. |
| ReadBack.FourThousandWritten | RomanNumeralsTest/RomanNumeral/RomanNumeral/RomanNumeral.cs:94-97 | 4000, which the constructor accepts, is written MMMM. |
| ReadBack.FourMsRefused | RomanNumeralsTest/RomanNumeral/RomanNumeralTest/RomanNumeralTest.cs:149-170 | MMMM raises the repetition error. |
| ReadBack.FourThousandIsRefused | RomanNumeralsTest/RomanNumeral/RomanNumeralTest/RomanNumeralTest.cs:179 | Decoding the encoding of 4000 raises the repetition error, which is why the round trip stops at 3999. |
| KnownValues.ConstructorBounds | RomanNumeralsTest/RomanNumeral/RomanNumeralTest/RomanNumeralTest.cs:52-85 | -100 and 5000 are refused as out of range. 0 and 4000 are accepted. |
| KnownValues.Writes1110 | RomanNumeralsTest/RomanNumeral/RomanNumeralTest/RomanNumeralTest.cs:10 | 1110 is written MCX. |
| KnownValues.Writes1993 | RomanNumeralsTest/RomanNumeral/RomanNumeralTest/RomanNumeralTest.cs:11 | 1993 is written MCMXCIII. |
| KnownValues.Writes8 | RomanNumeralsTest/RomanNumeral/RomanNumeralTest/RomanNumeralTest.cs:12 | 8 is written VIII. |
| KnownValues.AdditiveOnes | RomanNumeralsTest/RomanNumeral/RomanNumeral/RomanNumeral.cs:113-114 | In additive notation, 1 to 4 are written as that many I's. |
| KnownValues.AdditiveFour | RomanNumeralsTest/RomanNumeral/RomanNumeral/RomanNumeral.cs:55-58 | In additive notation, 4 is written IIII. |
| KnownValues.AdditiveNine | RomanNumeralsTest/RomanNumeral/RomanNumeral/RomanNumeral.cs:113-153 | In additive notation, 9 is written VIIII, not IX. |
| KnownValues.NineDigits | RomanNumeralsTest/RomanNumeral/RomanNumeral/RomanNumeral.cs:55-58 | Nine by division over the additive letters is one V and four I's. |
| KnownValues.ReadsKnownValues | RomanNumeralsTest/RomanNumeral/RomanNumeralTest/RomanNumeralTest.cs:23-34 | MCX, MCMXCIII and VIII read as 1110, 1993 and 8. |
| KnownValues.NormalizeCMJ | RomanNumeralsTest/RomanNumeral/RomanNumeral/RomanNumeral.cs:180-181 | CMJ normalises to CMI. |
| KnownValues.TrailingJ | RomanNumeralsTest/RomanNumeral/RomanNumeralTest/RomanNumeralTest.cs:36-46 | CMJ reads as 901. |
| KnownValues.ZeroTexts | RomanNumeralsTest/RomanNumeral/RomanNumeralTest/RomanNumeralTest.cs:109-129 | The empty text, the null text, and "NULLA", "nulla" and "NuLlA" read as 0. |
| KnownValues.RefusedLetters | RomanNumeralsTest/RomanNumeral/RomanNumeralTest/RomanNumeralTest.cs:131-147 | NCJS raises the non-Roman error. |
| KnownValues.RefusedForRepeats | RomanNumeralsTest/RomanNumeral/RomanNumeral/RomanNumeral.cs:195-205 | A classical text that is not a key, and that breaks the rule in any window, raises the repetition error. |
| KnownValues.RefusedRepeats | RomanNumeralsTest/RomanNumeral/RomanNumeralTest/RomanNumeralTest.cs:149-170 | Each of IIII, DDD, CCCC and MMMM, the texts of the repetition test, raises the repetition error. |
| KnownValues.IVNotReadAsI | RomanNumeralsTest/RomanNumeral/RomanNumeral/RomanNumeral.cs:43-46 | IV cannot be read as I with V left over, because IV comes before I in the option list and starts the text. |
| KnownValues.Eighteen | RomanNumeralsTest/RomanNumeral/RomanNumeral/RomanNumeral.cs:190-192 | XIIX and IIXX read as 18 through the fast path. |
| KnownValues.ReadMMMCMD | RomanNumeralsTest/RomanNumeral/RomanNumeral/RomanNumeral.cs:214-237 | The loop reads MMMCMD to the end as M, M, M, CM, D. |
| KnownValues.WorthMMMCMD | RomanNumeralsTest/RomanNumeral/RomanNumeral/RomanNumeral.cs:226-228 | Those options sum to 4400. |
| KnownValues.TotalOutOfRange | RomanNumeralsTest/RomanNumeral/RomanNumeral/RomanNumeral.cs:240-241 | MMMCMD passes every check, but its total of 4400 makes the constructor raise the range error. |

## Left out

- `Main` (lines 247-285 of RomanNumeral.cs) is left out. It is an interactive
  console menu with no logic of its own.
- The string constructor `RomanNumeral(string)` (lines 75-87) is left out. It
  wraps the library call `Int32.Parse` and has no range check.
- `IsNumeral` (lines 158-166) is left out. It is private and unused, and
  amounts to `Parse(str) != null` on a non-empty text.
- Writes to the tables are left out. In the source the tables are public:
  `NonRomanNumerals` (line 71) is not even `readonly`, and the contents of the
  `readonly` arrays and of the value dictionary (lines 16-58) can still be
  changed by any caller. The model assumes no caller writes to them, and
  nothing in the class does.
- Exception message texts (lines 62-65) are left out. Errors are modelled by
  kind only.
- `ToUpper` is modelled for ASCII letters only. Culture-specific and
  non-ASCII case mappings are not modelled.
- `EndsWith` and `StartsWith` are modelled as ordinal comparisons. .NET makes
  them culture-sensitive by default.
- The .NET `Regex` engine is not modelled. The pattern `(.)\1+` is modelled as
  a left-to-right scan for maximal runs of a character other than a line feed.
- The commented-out operator overloads in RomanNumeralNotation.cs are left out.
- The test framework scaffolding is left out. Its concrete values are kept in
  `KnownValues`.
- Decoder.RegexMatches works on Unicode scalar values, not on the UTF-16
  code units of a C# string. Four copies of a character outside the Basic
  Multilingual Plane form one run here, so `Parse` raises the repetition
  error. In the source the surrogate halves alternate, the pattern finds no
  match, the loop consumes nothing, and `Parse` returns `null`.
- Decoder.Parse keeps the running total as an unbounded integer, where the
  source uses a 32-bit `int`. The source cannot overflow there:
  - the pointer never moves back;
  - after the repetition check, each one-letter option is consumed in one run
    of at most three letters (one for V, L and D);
  - each multi-letter option is consumed at most once.
  So the total is at most 5367.
- Encoder.ToString is modelled for the numbers 0..4000 that the integer
  constructor admits. Through the string constructor, which is left out,
  `Number` can hold any `int`. For a negative number the source's loop (lines
  129-153) runs off the end of the list and throws. Above 4000 it writes extra
  M's.
