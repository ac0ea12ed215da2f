/**
  The decoder's repetition rule, stated on the text itself: a text is
  refused exactly when V, L or D is doubled somewhere, or some character
  other than a line feed appears four times in a row.
 */
module Repetition {
  import opened Decoder

  /** The window at `t` breaks the rule: a doubled V, L or D, or four equal
      characters other than a line feed. */
  predicate BadAt(s: string, t: nat)
  {
    || (t + 1 < |s| && NeverRepeated(s[t]) && s[t + 1] == s[t])
    || (t + 3 < |s| && s[t] != '\n' && s[t + 1] == s[t] && s[t + 2] == s[t] && s[t + 3] == s[t])
  }

  /** Some window at or after `i` breaks the rule. */
  predicate BadFrom(s: string, i: nat)
  {
    exists t :: i <= t < |s| && BadAt(s, t)
  }

  /** Some match in the list is refused. */
  predicate SomeOffending(ms: seq<Match>)
  {
    exists j :: 0 <= j < |ms| && Offending(ms[j])
  }

  /** Where the pattern scan may stand: at the start, at the end, at the
      first character of a run, or inside a run of line feeds. */
  predicate ScanPoint(s: string, i: nat)
  {
    i == 0 || i >= |s| || s[i - 1] != s[i] || s[i] == '\n'
  }

  /** A run found by the pattern is refused exactly when one of its windows
      breaks the rule. */
  lemma RunWindows(s: string, i: nat, k: nat)
    requires i < |s| && k == RunLength(s, i) && s[i] != '\n'
    ensures Offending(Match(s[i], k)) <==> exists t :: i <= t < i + k && BadAt(s, t)
  {
    if Offending(Match(s[i], k)) {
      if NeverRepeated(s[i]) && k > 1 {
        assert BadAt(s, i);
      } else {
        assert s[i + 1] == s[i] && s[i + 2] == s[i] && s[i + 3] == s[i];
        assert BadAt(s, i);
      }
    }
    if t :| i <= t < i + k && BadAt(s, t) {
      assert s[t] == s[i];
      if t + 1 < |s| && s[t + 1] == s[t] {
        assert t + 1 < i + k;
      }
      if t + 3 < |s| && s[t + 1] == s[t] && s[t + 2] == s[t] && s[t + 3] == s[t] {
        assert t + 1 < i + k;
        assert t + 2 < i + k;
        assert t + 3 < i + k;
      }
    }
  }

  /** The pattern scan from a scan point finds a refused match exactly when
      some window from there on breaks the rule. */
  lemma {:induction false} ScanFindsBadWindow(s: string, i: nat)
    requires i <= |s| && ScanPoint(s, i)
    ensures SomeOffending(RegexMatches(s, i)) <==> BadFrom(s, i)
    decreases |s| - i
  {
    if i < |s| {
      var k := RunLength(s, i);
      if k >= 2 && s[i] != '\n' {
        assert ScanPoint(s, i + k);
        ScanFindsBadWindow(s, i + k);
        ScanRun(s, i, k);
      } else {
        assert ScanPoint(s, i + 1);
        ScanFindsBadWindow(s, i + 1);
        ScanPast(s, i);
      }
    }
  }

  /** The scan matches a run of two or more: if the rest of the scan finds
      exactly the bad windows after the run, the whole scan finds exactly
      the bad windows from the run on. */
  lemma ScanRun(s: string, i: nat, k: nat)
    requires i < |s| && k == RunLength(s, i) && k >= 2 && s[i] != '\n'
    requires SomeOffending(RegexMatches(s, i + k)) <==> BadFrom(s, i + k)
    ensures SomeOffending(RegexMatches(s, i)) <==> BadFrom(s, i)
  {
    RunWindows(s, i, k);
    OffendingCons(Match(s[i], k), RegexMatches(s, i + k));
    BadFromSplit(s, i, i + k);
  }

  /** The scan steps over a position that starts no match: no window breaks
      the rule there. */
  lemma ScanPast(s: string, i: nat)
    requires i < |s| && ScanPoint(s, i)
    requires RunLength(s, i) < 2 || s[i] == '\n'
    requires SomeOffending(RegexMatches(s, i + 1)) <==> BadFrom(s, i + 1)
    ensures SomeOffending(RegexMatches(s, i)) <==> BadFrom(s, i)
  {
    assert !BadAt(s, i);
    BadFromSplit(s, i, i + 1);
  }

  /** A list of matches headed by `m` holds a refused match exactly when
      `m` is refused or the rest holds one. */
  lemma OffendingCons(m: Match, ms: seq<Match>)
    ensures SomeOffending([m] + ms) <==> Offending(m) || SomeOffending(ms)
  {
    if Offending(m) {
      assert Offending(([m] + ms)[0]);
    }
    if SomeOffending([m] + ms) && !Offending(m) {
      var j :| 0 <= j < |[m] + ms| && Offending(([m] + ms)[j]);
      assert Offending(ms[j - 1]);
    }
    if SomeOffending(ms) {
      var j :| 0 <= j < |ms| && Offending(ms[j]);
      assert Offending(([m] + ms)[j + 1]);
    }
  }

  /** A bad window from `i` on lies before `j` or from `j` on. */
  lemma BadFromSplit(s: string, i: nat, j: nat)
    requires i <= j <= |s|
    ensures BadFrom(s, i) <==> (exists t :: i <= t < j && BadAt(s, t)) || BadFrom(s, j)
  {
    if BadFrom(s, i) {
      var t :| i <= t < |s| && BadAt(s, t);
      if t >= j {
        assert BadFrom(s, j);
      }
    }
  }

  /** The decoder's repetition check refuses a text exactly when some window
      of it doubles V, L or D, or repeats a character four times. */
  lemma RepeatRule(s: string)
    ensures HasRepeatViolation(s) <==> BadFrom(s, 0)
  {
    ScanFindsBadWindow(s, 0);
  }

  /** Two texts that each break no window, and whose meeting letters differ,
      break no window when joined. */
  lemma NoBadWindowJoined(a: string, b: string)
    requires !BadFrom(a, 0) && !BadFrom(b, 0)
    requires a == [] || b == [] || a[|a| - 1] != b[0]
    ensures !BadFrom(a + b, 0)
  {
    var s := a + b;
    forall t | 0 <= t < |s|
      ensures !BadAt(s, t)
    {
      var w := if t + 1 < |s| && NeverRepeated(s[t]) && s[t + 1] == s[t] then 1 else 3;
      if BadAt(s, t) {
        assert forall x :: t <= x <= t + w ==> s[x] == s[t];
        if t + w < |a| {
          assert forall x :: t <= x <= t + w ==> a[x] == s[x];
          assert BadAt(a, t);
        } else if t >= |a| {
          assert forall x :: t <= x <= t + w ==> b[x - |a|] == s[x];
          assert BadAt(b, t - |a|);
        }
      }
    }
  }
}
