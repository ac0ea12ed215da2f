/**
  Additive Roman notation, and the proof that the greedy encoder over the
  additive list writes exactly it: every letter as many times as it fits,
  from M down to I, with no subtractive pairs.
 */
module Additive {
  import opened Tables
  import opened Numerals
  import opened Encoder
  import opened Digits

  /** The seven classical letters from largest to smallest, and their worths. */
  const AdditiveOrder: string := "MDCLXVI"
  const AdditiveWorths: seq<nat> := [1000, 500, 100, 50, 10, 5, 1]

  /** Every worth is positive, so each division is defined. */
  predicate PositiveWorths(worths: seq<nat>)
  {
    forall k :: 0 <= k < |worths| ==> worths[k] > 0
  }

  /** Additive notation by division over a list of letters and their
      worths: the first letter as many times as its worth fits in `n`, then
      the remaining letters over what is left. */
  function AdditiveOver(letters: string, worths: seq<nat>, n: nat): string
    requires |letters| == |worths| && PositiveWorths(worths)
    decreases |letters|
  {
    if |letters| == 0 then []
    else Repeat(letters[0], n / worths[0]) + AdditiveOver(letters[1..], worths[1..], n % worths[0])
  }

  /** Additive notation, independent of any symbol list: the thousands as
      M's, then each of D, C, L, X, V and I as many times as it fits in what
      the larger letters left over. */
  function AdditiveDigits(n: nat): string
  {
    AdditiveOver(AdditiveOrder, AdditiveWorths, n)
  }

  /** Letters worth more than `n` are not written: additive notation over
      the first `k` of them is additive notation over the rest. */
  lemma {:induction false} SkipLarger(letters: string, worths: seq<nat>, k: nat, n: nat)
    requires |letters| == |worths| && PositiveWorths(worths) && k <= |worths|
    requires forall j :: 0 <= j < k ==> n < worths[j]
    ensures PositiveWorths(worths[k..])
    ensures AdditiveOver(letters, worths, n) == AdditiveOver(letters[k..], worths[k..], n)
    decreases k
  {
    assert PositiveWorths(worths[k..]);
    if k > 0 {
      var u := worths[0];
      assert n < u;
      SmallQuotient(n, u);
      assert AdditiveOver(letters, worths, n) == Repeat(letters[0], 0) + AdditiveOver(letters[1..], worths[1..], n);
      assert PositiveWorths(worths[1..]);
      assert forall j :: 0 <= j < k - 1 ==> n < worths[1..][j] by {
        forall j | 0 <= j < k - 1
          ensures n < worths[1..][j]
        {
          assert worths[1..][j] == worths[j + 1];
        }
      }
      SkipLarger(letters[1..], worths[1..], k - 1, n);
      assert letters[1..][k - 1..] == letters[k..];
      assert worths[1..][k - 1..] == worths[k..];
    }
  }

  /** A number below the divisor divides to zero and leaves itself. */
  lemma SmallQuotient(n: nat, u: nat)
    requires n < u
    ensures n / u == 0 && n % u == n
  {
  }

  /** Below ten, additive notation is the V's and then the I's. */
  lemma AdditiveUnits(v: nat)
    requires v < 10
    ensures AdditiveDigits(v) == Repeat('V', v / 5) + Repeat('I', v % 5)
  {
    var letters, worths := AdditiveOrder, AdditiveWorths;
    assert forall j :: 0 <= j < 5 ==> v < worths[j];
    SkipLarger(letters, worths, 5, v);
    FivesAndOnes(letters[5..], worths[5..], v);
  }

  /** Over V worth 5 and I worth 1, additive notation is the V's and then
      the I's. */
  lemma FivesAndOnes(letters: string, worths: seq<nat>, v: nat)
    requires |letters| == 2 && |worths| == 2
    requires letters[0] == 'V' && letters[1] == 'I' && worths[0] == 5 && worths[1] == 1
    ensures PositiveWorths(worths)
    ensures AdditiveOver(letters, worths, v) == Repeat('V', v / 5) + Repeat('I', v % 5)
  {
    var i := v % 5;
    assert i / 1 == i && i % 1 == 0;
    assert AdditiveOver(letters[1..], worths[1..], i) == Repeat('I', i) + AdditiveOver(letters[1..][1..], worths[1..][1..], 0);
  }

  /** A symbol list laid out like the letters and worths: from `p` on, each
      symbol is the one letter at its position, worth the worth there. */
  predicate LaidOutFrom(vals: map<string, nat>, tab: seq<string>, letters: string, worths: seq<nat>, p: nat)
  {
    && |letters| == |tab| && |worths| == |tab|
    && forall k :: p <= k < |tab| ==> tab[k] == [letters[k]] && tab[k] in vals && vals[tab[k]] == worths[k]
  }

  /** The walk over a one-letter symbol worth `u` writes its letter
      `w / u` times, then moves on with the remainder `w % u`. */
  lemma EncodeDivide(vals: map<string, nat>, tab: seq<string>, p: nat, c: char, u: nat, w: nat)
    requires EncodableList(vals, tab)
    requires p < |tab| && tab[p] == [c] && tab[p] in vals && vals[tab[p]] == u
    ensures w % u > 0 ==> p + 1 < |tab|
    ensures Spell(tab, EncodeFrom(vals, tab, p, w)) == Repeat(c, w / u) + Spell(tab, EncodeFrom(vals, tab, p + 1, w % u))
  {
    assert u > 0;
    var k, r := w / u, w % u;
    assert k * u + r == w;
    EncodeRepeat(vals, tab, p, k, r);
    SpellRepeat(tab, p, c, k);
    SpellAppend(tab, seq(k, _ => p), EncodeFrom(vals, tab, p + 1, r));
  }

  /** Over a list of one-letter symbols, the greedy walk from `p` writes
      exactly the additive notation of the letters from `p` on. */
  lemma {:induction false} EncodeAdditiveFrom(vals: map<string, nat>, tab: seq<string>, letters: string, worths: seq<nat>, p: nat, w: nat)
    requires EncodableList(vals, tab) && PositiveWorths(worths)
    requires p <= |tab| && LaidOutFrom(vals, tab, letters, worths, p)
    requires w > 0 ==> p < |tab|
    ensures PositiveWorths(worths[p..])
    ensures Spell(tab, EncodeFrom(vals, tab, p, w)) == AdditiveOver(letters[p..], worths[p..], w)
    decreases |tab| - p
  {
    assert PositiveWorths(worths[p..]);
    if p == |tab| {
      assert w == 0;
    } else {
      EncodeDivide(vals, tab, p, letters[p], worths[p], w);
      EncodeAdditiveFrom(vals, tab, letters, worths, p + 1, w % worths[p]);
      assert letters[p..][1..] == letters[p + 1..];
      assert worths[p..][1..] == worths[p + 1..];
    }
  }

  /** The walk over a list laid out like the additive letters writes every
      number in additive notation. */
  lemma EncodeAdditive(vals: map<string, nat>, tab: seq<string>, n: nat)
    requires EncodableList(vals, tab) && LaidOutFrom(vals, tab, AdditiveOrder, AdditiveWorths, 0)
    ensures Spell(tab, EncodeFrom(vals, tab, 0, n)) == AdditiveDigits(n)
  {
    EncodeAdditiveFrom(vals, tab, AdditiveOrder, AdditiveWorths, 0, n);
    assert AdditiveOrder[0..] == AdditiveOrder;
    assert AdditiveWorths[0..] == AdditiveWorths;
  }

  /** The converter's additive list is the additive letters, one symbol
      each, at their worths. */
  lemma AdditiveNotationLayout()
    ensures EncodableList(Values, AdditiveNotation)
    ensures LaidOutFrom(Values, AdditiveNotation, AdditiveOrder, AdditiveWorths, 0)
  {
    AdditiveListWellFormed();
    HundredsValues();
    TensValues();
    UnitsValues();
    forall k | 0 <= k < 7
      ensures AdditiveNotation[k] == [AdditiveOrder[k]]
      ensures AdditiveNotation[k] in Values && Values[AdditiveNotation[k]] == AdditiveWorths[k]
    {
      if k == 0 { assert AdditiveNotation[k] == "M"; }
      else if k == 1 { assert AdditiveNotation[k] == "D"; }
      else if k == 2 { assert AdditiveNotation[k] == "C"; }
      else if k == 3 { assert AdditiveNotation[k] == "L"; }
      else if k == 4 { assert AdditiveNotation[k] == "X"; }
      else if k == 5 { assert AdditiveNotation[k] == "V"; }
      else { assert AdditiveNotation[k] == "I"; }
    }
  }

  /** `ToString` in additive notation writes every positive numeral in
      additive notation: no subtractive pair, each letter as often as it
      fits. */
  lemma ToStringIsAdditive(num: Numeral)
    requires num > 0
    ensures ToString(num, Additive) == AdditiveDigits(num as nat)
  {
    AdditiveNotationLayout();
    EncodeAdditive(Values, AdditiveNotation, num as nat);
  }
}
