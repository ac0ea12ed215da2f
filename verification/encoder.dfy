/**
  The encoder, `ToString(notation)`: it walks the notation's symbol list
  from the highest symbol down, subtracting each symbol while it fits and
  moving on after any symbol of more than one letter.
 */
module Encoder {
  import opened Tables
  import opened Numerals

  /** The greedy walk from position `pos` with `value` still to write,
      returning the positions of the symbols it writes. The list is only
      read while `value` is not zero, so `pos` need only be in range then;
      the recursive calls' preconditions are the proof that the walk never
      reads past the end of the list. */
  function EncodeFrom(vals: map<string, nat>, tab: seq<string>, pos: nat, value: nat): (picks: seq<nat>)
    requires EncodableList(vals, tab)
    requires value > 0 ==> pos < |tab|
    ensures ValuedPicks(vals, tab, picks)
    decreases value, |tab| - pos
  {
    if value == 0 then []
    else
      var symbol := tab[pos];
      if value >= vals[symbol] then
        var next := if |symbol| > 1 then pos + 1 else pos;
        [pos] + EncodeFrom(vals, tab, next, value - vals[symbol])
      else
        EncodeFrom(vals, tab, pos + 1, value)
  }

  /** The walk writes symbols at or after its starting position, in greedy
      order, and they are worth exactly the value it started with. */
  lemma {:induction false} EncodeFromWalk(vals: map<string, nat>, tab: seq<string>, pos: nat, value: nat)
    requires EncodableList(vals, tab)
    requires value > 0 ==> pos < |tab|
    ensures forall i :: 0 <= i < |EncodeFrom(vals, tab, pos, value)| ==> pos <= EncodeFrom(vals, tab, pos, value)[i]
    ensures Worth(vals, tab, EncodeFrom(vals, tab, pos, value)) == value
    ensures GreedyOrder(tab, EncodeFrom(vals, tab, pos, value))
    decreases value, |tab| - pos
  {
    if value > 0 {
      var symbol := tab[pos];
      if value >= vals[symbol] {
        var next := if |symbol| > 1 then pos + 1 else pos;
        EncodeFromWalk(vals, tab, next, value - vals[symbol]);
        WalkTake(vals, tab, pos, next, value);
      } else {
        EncodeFromWalk(vals, tab, pos + 1, value);
      }
    }
  }

  /** One step of the walk that writes the symbol at `pos`: the walk's
      properties carry over from the rest of the walk to the whole. */
  lemma WalkTake(vals: map<string, nat>, tab: seq<string>, pos: nat, next: nat, value: nat)
    requires EncodableList(vals, tab)
    requires pos < |tab| && value >= vals[tab[pos]] > 0
    requires next == if |tab[pos]| > 1 then pos + 1 else pos
    requires value - vals[tab[pos]] > 0 ==> next < |tab|
    requires var rest := EncodeFrom(vals, tab, next, value - vals[tab[pos]]);
             && (forall i :: 0 <= i < |rest| ==> next <= rest[i])
             && Worth(vals, tab, rest) == value - vals[tab[pos]]
             && GreedyOrder(tab, rest)
    ensures forall i :: 0 <= i < |EncodeFrom(vals, tab, pos, value)| ==> pos <= EncodeFrom(vals, tab, pos, value)[i]
    ensures Worth(vals, tab, EncodeFrom(vals, tab, pos, value)) == value
    ensures GreedyOrder(tab, EncodeFrom(vals, tab, pos, value))
  {
    var rest := EncodeFrom(vals, tab, next, value - vals[tab[pos]]);
    assert EncodeFrom(vals, tab, pos, value) == [pos] + rest;
    PrependPick(tab, pos, next, rest);
    PrependWorth(vals, tab, pos, rest);
  }

  /** The symbols written for a non-zero numeral, as positions in the
      notation's list: they are worth exactly the numeral, and they come in
      greedy order. */
  function Encode(num: Numeral, notation: Notation): (picks: seq<nat>)
    requires num > 0
    ensures ValuedPicks(Values, NotationList(notation), picks)
    ensures Worth(Values, NotationList(notation), picks) == num as nat
    ensures GreedyOrder(NotationList(notation), picks)
    ensures |picks| > 0
  {
    NotationListsWellFormed(notation);
    EncodeFromWalk(Values, NotationList(notation), 0, num as nat);
    EncodeFrom(Values, NotationList(notation), 0, num as nat)
  }

  /** `ToString(notation)`: zero is written "NULLA"; any other numeral is
      written with the classical letters only, so "NULLA" is written for
      zero and for nothing else. */
  function ToString(num: Numeral, notation: Notation): (r: string)
    ensures r == Nulla <==> num == 0
    ensures num > 0 ==> |r| > 0 && forall i :: 0 <= i < |r| ==> r[i] in RomanLetters
  {
    if num == 0 then Nulla
    else
      var picks := Encode(num, notation);
      NotationListsWellFormed(notation);
      SpellIsRoman(NotationList(notation), picks);
      var r := Spell(NotationList(notation), picks);
      assert r[0] in RomanLetters && Nulla[0] !in RomanLetters;
      r
  }

  /** The walk moves past every symbol worth more than what is left to write. */
  lemma {:induction false} EncodeSkipTo(vals: map<string, nat>, tab: seq<string>, p: nat, q: nat, value: nat)
    requires EncodableList(vals, tab)
    requires p <= q <= |tab|
    requires value > 0 ==> q < |tab|
    requires forall j :: p <= j < q ==> value < vals[tab[j]]
    ensures EncodeFrom(vals, tab, p, value) == EncodeFrom(vals, tab, q, value)
    decreases q - p
  {
    if value > 0 && p < q {
      EncodeSkipTo(vals, tab, p + 1, q, value);
    }
  }

  /** A single-letter symbol is written as many times as it fits, then the
      walk moves on with the remainder. */
  lemma {:induction false} EncodeRepeat(vals: map<string, nat>, tab: seq<string>, p: nat, k: nat, r: nat)
    requires EncodableList(vals, tab)
    requires p < |tab| && |tab[p]| == 1 && r < vals[tab[p]]
    ensures r > 0 ==> p + 1 < |tab|
    ensures EncodeFrom(vals, tab, p, k * vals[tab[p]] + r) == seq(k, _ => p) + EncodeFrom(vals, tab, p + 1, r)
    decreases k
  {
    if k == 0 {
      EncodeRepeatNone(vals, tab, p, r);
    } else {
      EncodeRepeat(vals, tab, p, k - 1, r);
      EncodeRepeatOnce(vals, tab, p, k, r);
    }
  }

  /** No copy fits: the walk moves straight on. */
  lemma EncodeRepeatNone(vals: map<string, nat>, tab: seq<string>, p: nat, r: nat)
    requires EncodableList(vals, tab)
    requires p < |tab| && |tab[p]| == 1 && r < vals[tab[p]]
    ensures r > 0 ==> p + 1 < |tab|
    ensures EncodeFrom(vals, tab, p, 0 * vals[tab[p]] + r) == seq(0, _ => p) + EncodeFrom(vals, tab, p + 1, r)
  {
    EncodeSkipTo(vals, tab, p, p + 1, r);
    assert seq(0, _ => p) + EncodeFrom(vals, tab, p + 1, r) == EncodeFrom(vals, tab, p + 1, r);
  }

  /** One more copy: if `k - 1` copies are written before the remainder,
      so are `k`. */
  lemma EncodeRepeatOnce(vals: map<string, nat>, tab: seq<string>, p: nat, k: nat, r: nat)
    requires EncodableList(vals, tab)
    requires p < |tab| && |tab[p]| == 1 && r < vals[tab[p]] && k > 0
    requires EncodeFrom(vals, tab, p, (k - 1) * vals[tab[p]] + r) == seq(k - 1, _ => p) + EncodeFrom(vals, tab, p + 1, r)
    ensures EncodeFrom(vals, tab, p, k * vals[tab[p]] + r) == seq(k, _ => p) + EncodeFrom(vals, tab, p + 1, r)
  {
    var u := vals[tab[p]];
    var w := (k - 1) * u + r;
    MultipleStep(k, u, r);
    assert EncodeFrom(vals, tab, p, w + u) == [p] + EncodeFrom(vals, tab, p, w);
    assert seq(k, _ => p) == [p] + seq(k - 1, _ => p);
  }

  /** One more copy of `u`: the step from `k - 1` copies to `k`. */
  lemma MultipleStep(k: nat, u: nat, r: nat)
    requires k > 0
    ensures k * u + r == ((k - 1) * u + r) + u
  {
  }

  /** The walk moves past the symbols from `p` up to `q`, which are all
      worth more than `value`, and writes the symbol at `q`, which fits. */
  lemma EncodeSkipTake(vals: map<string, nat>, tab: seq<string>, p: nat, q: nat, value: nat)
    requires EncodableList(vals, tab)
    requires p <= q < |tab| && value >= vals[tab[q]]
    requires forall j :: p <= j < q ==> value < vals[tab[j]]
    ensures var next := if |tab[q]| > 1 then q + 1 else q;
            && (value - vals[tab[q]] > 0 ==> next < |tab|)
            && EncodeFrom(vals, tab, p, value) == [q] + EncodeFrom(vals, tab, next, value - vals[tab[q]])
  {
    EncodeSkipTo(vals, tab, p, q, value);
  }
}
