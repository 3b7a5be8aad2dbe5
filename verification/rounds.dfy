/**
 The rounds of `CommonPrefixSplit` (core.go:66-128): in each round every group of
 candidates that occurs in all names is scored and its candidates grow by one
 byte; the next round's table groups the grown candidates.
 */
module Rounds {
  import opened Strings
  import opened Candidates
  import opened Groups

  /** The length of the longest name. */
  function MaxLen(names: seq<string>): (r: nat)
    ensures forall ni | 0 <= ni < |names| :: |names[ni]| <= r
  {
    if |names| == 0 then 0
    else
      var rest := MaxLen(names[1..]);
      assert forall ni | 1 <= ni < |names| :: names[ni] == names[1..][ni - 1];
      if |names[0]| > rest then |names[0]| else rest
  }

  lemma ValidAllFit(names: seq<string>, cands: seq<seq<Match>>, L: nat, trim: string)
    requires Valid(names, cands, L, trim)
    ensures AllFit(names, cands)
  {
    forall ni | 0 <= ni < |names| ensures Fits(names[ni], cands[ni]) {
      ValidListFits(names[ni], cands[ni], L, trim);
    }
  }

  /**
   Candidate `m` survives a round: its group occurs in all `n` names, no stop
   word begins at the byte `check` tests, and one more byte stays short of the
   end of the name.
   */
  predicate Extends(name: string, stopWords: seq<string>, check: StopCheck, t: Table, n: nat, m: Match) {
    && 1 <= m.len
    && m.pos + m.len <= |name|
    && Complete(t, Spell(name, m), n)
    && StopSkip(name, m.pos + m.len - 1 + Ahead(check), stopWords) == 0
    && m.pos + m.len + 1 < |name|
  }

  /**
   The grown candidates of one name (core.go:96-120): groups missing from some name
   are skipped (core.go:69-71), and within the others each candidate either grows
   or is dropped as `Grow` decides.
   */
  function Survivors(name: string, stopWords: seq<string>, check: StopCheck, ms: seq<Match>, t: Table, n: nat): seq<Match>
    requires Fits(name, ms)
  {
    if |ms| == 0 then []
    else
      var rest := Survivors(name, stopWords, check, ms[1..], t, n);
      if Complete(t, Spell(name, ms[0]), n) then
        match Grow(name, stopWords, check, ms[0])
        case Some(g) => [g] + rest
        case None => rest
      else rest
  }

  /** Every survivor is a candidate that `Extends` accepts, one byte longer. */
  lemma {:induction false} SurvivorsSound(name: string, stopWords: seq<string>, check: StopCheck, ms: seq<Match>, t: Table, n: nat, L: nat, trim: string)
    requires ValidList(name, ms, L, trim)
    ensures forall m | m in Survivors(name, stopWords, check, ms, t, n) ::
              m.len == L + 1 && Match(m.pos, L) in ms && Extends(name, stopWords, check, t, n, Match(m.pos, L))
  {
    if |ms| > 0 {
      ValidListFits(name, ms, L, trim);
      ValidTail(name, ms, L, trim);
      SurvivorsStep(name, stopWords, check, ms, t, n);
      SurvivorsSound(name, stopWords, check, ms[1..], t, n, L, trim);
      assert ms[0] == Match(ms[0].pos, L);
      assert forall x | x in ms[1..] :: x in ms;
    }
  }

  /** Every candidate that `Extends` accepts survives, one byte longer. */
  lemma {:induction false} SurvivorsComplete(name: string, stopWords: seq<string>, check: StopCheck, ms: seq<Match>, t: Table, n: nat, L: nat, trim: string)
    requires ValidList(name, ms, L, trim)
    ensures forall m | m in ms && Extends(name, stopWords, check, t, n, m) :: Match(m.pos, L + 1) in Survivors(name, stopWords, check, ms, t, n)
  {
    if |ms| > 0 {
      ValidListFits(name, ms, L, trim);
      ValidTail(name, ms, L, trim);
      SurvivorsStep(name, stopWords, check, ms, t, n);
      SurvivorsComplete(name, stopWords, check, ms[1..], t, n, L, trim);
      forall m | m in ms && Extends(name, stopWords, check, t, n, m) ensures Match(m.pos, L + 1) in Survivors(name, stopWords, check, ms, t, n) {
        if m != ms[0] {
          var i :| 0 <= i < |ms| && ms[i] == m;
          assert ms[1..][i - 1] == m;
        }
      }
    }
  }

  /**
   Exactly the candidates that `Extends` accepts survive, each one byte longer at
   the same position.
   */
  lemma SurvivorsMembers(name: string, stopWords: seq<string>, check: StopCheck, ms: seq<Match>, t: Table, n: nat, L: nat, trim: string)
    requires ValidList(name, ms, L, trim)
    ensures var r := Survivors(name, stopWords, check, ms, t, n);
            && (forall m | m in r :: m.len == L + 1 && Match(m.pos, L) in ms && Extends(name, stopWords, check, t, n, Match(m.pos, L)))
            && (forall m | m in ms && Extends(name, stopWords, check, t, n, m) :: Match(m.pos, L + 1) in r)
  {
    SurvivorsSound(name, stopWords, check, ms, t, n, L, trim);
    SurvivorsComplete(name, stopWords, check, ms, t, n, L, trim);
  }

  /** One step of a survivor list: the head is kept, grown, or dropped. */
  lemma SurvivorsStep(name: string, stopWords: seq<string>, check: StopCheck, ms: seq<Match>, t: Table, n: nat)
    requires Fits(name, ms) && |ms| > 0
    ensures var rest := Survivors(name, stopWords, check, ms[1..], t, n);
            var r := Survivors(name, stopWords, check, ms, t, n);
            if Extends(name, stopWords, check, t, n, ms[0]) then r == [Match(ms[0].pos, ms[0].len + 1)] + rest
            else r == rest
  {
  }

  /** Survivors of candidates right of `b` lie right of `b`. */
  lemma {:induction false} SurvivorsRightOf(name: string, stopWords: seq<string>, check: StopCheck, ms: seq<Match>, t: Table, n: nat, b: int)
    requires Fits(name, ms)
    requires forall x | x in ms :: b < x.pos
    ensures forall x | x in Survivors(name, stopWords, check, ms, t, n) :: b < x.pos
  {
    if |ms| > 0 {
      SurvivorsStep(name, stopWords, check, ms, t, n);
      SurvivorsRightOf(name, stopWords, check, ms[1..], t, n, b);
    }
  }

  /** Survivors stay in strictly increasing position. */
  lemma {:induction false} SurvivorsSorted(name: string, stopWords: seq<string>, check: StopCheck, ms: seq<Match>, t: Table, n: nat, L: nat, trim: string)
    requires ValidList(name, ms, L, trim)
    ensures Sorted(Survivors(name, stopWords, check, ms, t, n))
  {
    if |ms| > 0 {
      ValidListFits(name, ms, L, trim);
      ValidTail(name, ms, L, trim);
      SurvivorsStep(name, stopWords, check, ms, t, n);
      SurvivorsSorted(name, stopWords, check, ms[1..], t, n, L, trim);
      if Extends(name, stopWords, check, t, n, ms[0]) {
        HeadLeftOfTail(ms);
        SurvivorsRightOf(name, stopWords, check, ms[1..], t, n, ms[0].pos);
        ConsSorted(Match(ms[0].pos, L + 1), Survivors(name, stopWords, check, ms[1..], t, n));
      }
    }
  }

  /** Survivors keep the list's shape and end strictly before the end of the name. */
  lemma SurvivorsValid(name: string, stopWords: seq<string>, check: StopCheck, ms: seq<Match>, t: Table, n: nat, L: nat, trim: string)
    requires ValidList(name, ms, L, trim)
    ensures var r := Survivors(name, stopWords, check, ms, t, n);
            && ValidList(name, r, L + 1, trim)
            && forall j | 0 <= j < |r| :: r[j].pos + r[j].len < |name|
  {
    var r := Survivors(name, stopWords, check, ms, t, n);
    SurvivorsMembers(name, stopWords, check, ms, t, n, L, trim);
    SurvivorsSorted(name, stopWords, check, ms, t, n, L, trim);
    forall j | 0 <= j < |r| ensures WellPlaced(name, r[j], L + 1, trim) && r[j].pos + r[j].len < |name| {
      assert r[j] in r;
      var i :| 0 <= i < |ms| && ms[i] == Match(r[j].pos, L);
      assert WellPlaced(name, ms[i], L, trim);
    }
  }

  /** The next round's candidate lists, one per name. */
  function Next(names: seq<string>, stopWords: seq<string>, check: StopCheck, cands: seq<seq<Match>>, t: Table): (next: seq<seq<Match>>)
    requires AllFit(names, cands)
    ensures |next| == |names|
  {
    seq(|names|, ni requires 0 <= ni < |names| => Survivors(names[ni], stopWords, check, cands[ni], t, |names|))
  }

  lemma NextValid(names: seq<string>, stopWords: seq<string>, check: StopCheck, cands: seq<seq<Match>>, t: Table, L: nat, trim: string)
    requires Valid(names, cands, L, trim)
    requires AllFit(names, cands)
    ensures Valid(names, Next(names, stopWords, check, cands, t), L + 1, trim)
  {
    forall ni | 0 <= ni < |names| ensures ValidList(names[ni], Next(names, stopWords, check, cands, t)[ni], L + 1, trim) {
      SurvivorsValid(names[ni], stopWords, check, cands[ni], t, |names|, L, trim);
    }
  }

  /** A non-empty table of valid candidates bounds the round length by the longest name. */
  lemma NonEmptyBound(names: seq<string>, cands: seq<seq<Match>>, L: nat, trim: string)
    requires Valid(names, cands, L, trim)
    requires AllFit(names, cands)
    requires |Group(names, cands)| > 0
    ensures L <= MaxLen(names)
  {
    var t := Group(names, cands);
    GroupOK(names, cands, L, trim);
    var s :| s in t;
    assert KeyOK(names, t, s, L, trim);
    var ni :| ni in t[s];
    assert EntryOK(names, t[s], s, ni, L, trim);
    assert WellPlaced(names[ni], t[s][ni][0], L, trim);
  }

  /**
   The tables of the rounds from length `L` on (core.go:66-128): the loop stops
   when a table is empty, otherwise the next table groups the survivors.
   */
  function RoundsFrom(names: seq<string>, stopWords: seq<string>, check: StopCheck, trim: string, cands: seq<seq<Match>>, L: nat): seq<Table>
    requires Valid(names, cands, L, trim)
    requires L <= MaxLen(names) + 1
    decreases MaxLen(names) + 1 - L
  {
    ValidAllFit(names, cands, L, trim);
    var t := Group(names, cands);
    if |t| == 0 then []
    else
      NonEmptyBound(names, cands, L, trim);
      NextValid(names, stopWords, check, cands, t, L, trim);
      [t] + RoundsFrom(names, stopWords, check, trim, Next(names, stopWords, check, cands, t), L + 1)
  }

  /** Every round's table, the first one built from the seeds (core.go:40-64). */
  function AllRounds(names: seq<string>, stopWords: seq<string>, check: StopCheck, trim: string): seq<Table>
  {
    SeedsValid(names, stopWords, trim);
    RoundsFrom(names, stopWords, check, trim, Seeds(names, stopWords, trim), 1)
  }

  /** There are at most as many rounds from length `L` as bytes in the longest name from `L` on. */
  lemma {:induction false} RoundsFromCount(names: seq<string>, stopWords: seq<string>, check: StopCheck, trim: string, cands: seq<seq<Match>>, L: nat)
    requires Valid(names, cands, L, trim)
    requires L <= MaxLen(names) + 1
    ensures |RoundsFrom(names, stopWords, check, trim, cands, L)| <= MaxLen(names) + 1 - L
    decreases MaxLen(names) + 1 - L
  {
    ValidAllFit(names, cands, L, trim);
    var t := Group(names, cands);
    if |t| > 0 {
      NonEmptyBound(names, cands, L, trim);
      NextValid(names, stopWords, check, cands, t, L, trim);
      var next := Next(names, stopWords, check, cands, t);
      RoundsFromCount(names, stopWords, check, trim, next, L + 1);
      assert RoundsFrom(names, stopWords, check, trim, cands, L) == [t] + RoundsFrom(names, stopWords, check, trim, next, L + 1);
    } else {
      assert RoundsFrom(names, stopWords, check, trim, cands, L) == [];
    }
  }

  /** There is a round exactly when the current table is non-empty. */
  lemma RoundsFromNonEmpty(names: seq<string>, stopWords: seq<string>, check: StopCheck, trim: string, cands: seq<seq<Match>>, L: nat)
    requires Valid(names, cands, L, trim)
    requires L <= MaxLen(names) + 1
    ensures AllFit(names, cands)
    ensures 0 < |RoundsFrom(names, stopWords, check, trim, cands, L)| <==> |Group(names, cands)| > 0
  {
    ValidAllFit(names, cands, L, trim);
    if |Group(names, cands)| > 0 {
      NonEmptyBound(names, cands, L, trim);
      NextValid(names, stopWords, check, cands, Group(names, cands), L, trim);
    }
  }

  /** A non-empty round sequence is the current table followed by the rounds of the survivors. */
  lemma RoundsFromUnfold(names: seq<string>, stopWords: seq<string>, check: StopCheck, trim: string, cands: seq<seq<Match>>, L: nat)
    requires Valid(names, cands, L, trim)
    requires L <= MaxLen(names) + 1
    requires 0 < |RoundsFrom(names, stopWords, check, trim, cands, L)|
    ensures AllFit(names, cands) && |Group(names, cands)| > 0
    ensures Valid(names, Next(names, stopWords, check, cands, Group(names, cands)), L + 1, trim)
    ensures L + 1 <= MaxLen(names) + 1
    ensures RoundsFrom(names, stopWords, check, trim, cands, L) ==
            [Group(names, cands)] + RoundsFrom(names, stopWords, check, trim, Next(names, stopWords, check, cands, Group(names, cands)), L + 1)
  {
    ValidAllFit(names, cands, L, trim);
    var t := Group(names, cands);
    NonEmptyBound(names, cands, L, trim);
    NextValid(names, stopWords, check, cands, t, L, trim);
  }

  /** The first round from length `L` has a non-empty, well-formed table whose keys have length `L`. */
  lemma FirstRoundOK(names: seq<string>, stopWords: seq<string>, check: StopCheck, trim: string, cands: seq<seq<Match>>, L: nat)
    requires Valid(names, cands, L, trim)
    requires L <= MaxLen(names) + 1
    requires 0 < |RoundsFrom(names, stopWords, check, trim, cands, L)|
    ensures |RoundsFrom(names, stopWords, check, trim, cands, L)[0]| > 0
    ensures TableOK(names, RoundsFrom(names, stopWords, check, trim, cands, L)[0], L, trim)
  {
    RoundsFromUnfold(names, stopWords, check, trim, cands, L);
    GroupOK(names, cands, L, trim);
  }

  /** Carries a table's well-formedness from the later rounds to its place in the whole sequence. */
  lemma LaterRoundOK(names: seq<string>, ts: seq<Table>, t: Table, later: seq<Table>, k: nat, len: nat, trim: string)
    requires ts == [t] + later && 0 < k < |ts|
    requires |later[k - 1]| > 0 && TableOK(names, later[k - 1], len, trim)
    ensures |ts[k]| > 0 && TableOK(names, ts[k], len, trim)
  {
  }

  /** Round `k` from length `L` has a non-empty, well-formed table whose keys have length `L + k`. */
  lemma {:induction false} RoundFromOK(names: seq<string>, stopWords: seq<string>, check: StopCheck, trim: string, cands: seq<seq<Match>>, L: nat, k: nat, len: nat)
    requires Valid(names, cands, L, trim)
    requires L <= MaxLen(names) + 1
    requires k < |RoundsFrom(names, stopWords, check, trim, cands, L)|
    requires len == L + k
    ensures |RoundsFrom(names, stopWords, check, trim, cands, L)[k]| > 0
    ensures TableOK(names, RoundsFrom(names, stopWords, check, trim, cands, L)[k], len, trim)
    decreases k
  {
    if k == 0 {
      FirstRoundOK(names, stopWords, check, trim, cands, L);
    } else {
      RoundsFromUnfold(names, stopWords, check, trim, cands, L);
      var next := Next(names, stopWords, check, cands, Group(names, cands));
      RoundFromOK(names, stopWords, check, trim, next, L + 1, k - 1, len);
      LaterRoundOK(names, RoundsFrom(names, stopWords, check, trim, cands, L), Group(names, cands),
                   RoundsFrom(names, stopWords, check, trim, next, L + 1), k, len, trim);
    }
  }

  /** There are at most as many rounds as bytes in the longest name. */
  lemma RoundsCount(names: seq<string>, stopWords: seq<string>, check: StopCheck, trim: string)
    ensures |AllRounds(names, stopWords, check, trim)| <= MaxLen(names)
  {
    SeedsValid(names, stopWords, trim);
    RoundsFromCount(names, stopWords, check, trim, Seeds(names, stopWords, trim), 1);
  }

  /** Round `k`'s table is non-empty and well formed, and all its keys are `k + 1` bytes long. */
  lemma RoundOK(names: seq<string>, stopWords: seq<string>, check: StopCheck, trim: string, k: nat)
    requires k < |AllRounds(names, stopWords, check, trim)|
    ensures |AllRounds(names, stopWords, check, trim)[k]| > 0
    ensures TableOK(names, AllRounds(names, stopWords, check, trim)[k], k + 1, trim)
  {
    SeedsValid(names, stopWords, trim);
    RoundFromOK(names, stopWords, check, trim, Seeds(names, stopWords, trim), 1, k, k + 1);
  }

  /**
   Group `s` is a candidate answer (core.go:69-76): it occurs in every name, is
   at least `minMatch` bytes long, and does not end in a trim byte.
   */
  predicate Qualifies(names: seq<string>, t: Table, s: string, trim: string, minMatch: int) {
    && Complete(t, s, |names|)
    && |s| > 0
    && |s| >= minMatch
    && s[|s| - 1] !in trim
  }

  /**
   The first candidate of each of the first `n` names (core.go:78-87). In a
   complete group of a well-formed table every list is non-empty; the
   placeholder `Match(0, 0)` only keeps the function total.
   */
  function FirstMatches(g: map<nat, seq<Match>>, n: nat): seq<Match>
  {
    if n == 0 then []
    else FirstMatches(g, n - 1) + [if n - 1 in g && |g[n - 1]| > 0 then g[n - 1][0] else Match(0, 0)]
  }

  lemma {:induction false} FirstMatchesSpec(g: map<nat, seq<Match>>, n: nat)
    ensures |FirstMatches(g, n)| == n
    ensures forall ni | 0 <= ni < n && ni in g && |g[ni]| > 0 :: FirstMatches(g, n)[ni] == g[ni][0]
  {
    if n > 0 {
      FirstMatchesSpec(g, n - 1);
    }
  }

  /** The sum of the candidates' positions. */
  function SumPos(ms: seq<Match>): nat {
    if |ms| == 0 then 0 else SumPos(ms[..|ms| - 1]) + ms[|ms| - 1].pos
  }

  /**
   The score of group `s` (core.go:88): one hundred times the mean position of
   its first candidates, rounded down. The sum is never negative, so Go's
   truncating division and Dafny's agree.
   */
  function Score(names: seq<string>, t: Table, s: string): int {
    if |names| == 0 || s !in t then 0
    else (SumPos(FirstMatches(t[s], |names|)) * 100) / |names|
  }

  /** Group `s` of round `k` qualifies (core.go:69-76). */
  ghost predicate QualifiesIn(names: seq<string>, ts: seq<Table>, trim: string, minMatch: int, k: int, s: string) {
    0 <= k < |ts| && Qualifies(names, ts[k], s, trim, minMatch)
  }

  /** No group of any round qualifies. */
  ghost predicate NoneQualify(names: seq<string>, ts: seq<Table>, trim: string, minMatch: int) {
    forall k, s :: !QualifiesIn(names, ts, trim, minMatch, k, s)
  }

  /**
   Group `s` of round `k` is a result the search may report: it qualifies; no
   qualifying group of any round scores lower; and every qualifying group of a
   later round scores strictly higher, because a later equal score would replace
   it (the `>=` of core.go:89). Which of several equal-scoring groups of one round
   is reported depends on Go's map iteration order, so this is not unique.
   */
  ghost predicate Winner(names: seq<string>, ts: seq<Table>, trim: string, minMatch: int, k: int, s: string) {
    && QualifiesIn(names, ts, trim, minMatch, k, s)
    && (forall k', s' | QualifiesIn(names, ts, trim, minMatch, k', s') ::
          Score(names, ts[k], s) <= Score(names, ts[k'], s'))
    && (forall k', s' | k < k' && QualifiesIn(names, ts, trim, minMatch, k', s') ::
          Score(names, ts[k], s) < Score(names, ts[k'], s'))
  }

  /** All winners lie in the same round and share one score. */
  lemma WinnerRoundUnique(names: seq<string>, ts: seq<Table>, trim: string, minMatch: int, k1: int, s1: string, k2: int, s2: string)
    requires Winner(names, ts, trim, minMatch, k1, s1)
    requires Winner(names, ts, trim, minMatch, k2, s2)
    ensures k1 == k2
    ensures Score(names, ts[k1], s1) == Score(names, ts[k2], s2)
  {
  }

  /**
   A qualifying group of round `k` (in particular a winner) is `k + 1` bytes
   long, at least `minMatch` long, begins and ends with a byte outside the trim
   set, and occurs in every name at the position of that name's first candidate.
   */
  lemma QualifiedShape(names: seq<string>, stopWords: seq<string>, check: StopCheck, trim: string, minMatch: int, k: int, s: string)
    requires QualifiesIn(names, AllRounds(names, stopWords, check, trim), trim, minMatch, k, s)
    ensures |s| == k + 1 && |s| >= minMatch
    ensures s[0] !in trim && s[|s| - 1] !in trim
    ensures forall ni | 0 <= ni < |names| :: IsSubstring(s, names[ni])
  {
    var ts := AllRounds(names, stopWords, check, trim);
    RoundOK(names, stopWords, check, trim, k);
    assert KeyOK(names, ts[k], s, k + 1, trim);
    QualifierShape(names, ts[k], s, k + 1, trim, minMatch);
  }

  /**
   A qualifying group whose entries are well formed for length `len` is `len` bytes
   long, begins and ends outside the trim set, and occurs in every name.
   */
  lemma QualifierShape(names: seq<string>, t: Table, s: string, len: nat, trim: string, minMatch: int)
    requires KeyOK(names, t, s, len, trim)
    requires Qualifies(names, t, s, trim, minMatch)
    ensures |s| == len && |s| >= minMatch
    ensures s[0] !in trim && s[|s| - 1] !in trim
    ensures forall ni | 0 <= ni < |names| :: IsSubstring(s, names[ni])
  {
    forall ni: nat | ni < |names| ensures IsSubstring(s, names[ni]) {
      EntryHead(names, t[s], s, ni, len, trim);
      assert OccursAt(s, names[ni], t[s][ni][0].pos);
    }
    var some :| some in t[s];
    EntryHead(names, t[s], s, 0, len, trim);
  }
}
