/**
 `CommonPrefixSplit` itself (core.go:14-137): the round loop over the lookup
 table, the choice of the best-scoring group, and the final slice and trim.
 */
module Search {
  import opened Wrappers
  import opened Strings
  import opened Candidates
  import opened Groups
  import opened Rounds
  import opened Boundaries

  /** The best group so far: each name's first candidate and the group's score (core.go:24-27). */
  datatype Summary = Summary(matches: seq<Match>, averagePos: int)

  /** The summary core.go:90-93 records for group `s` of table `t`. */
  function SummaryOf(names: seq<string>, t: Table, s: string): Summary {
    Summary(FirstMatches(if s in t then t[s] else map[], |names|), Score(names, t, s))
  }

  /** The replacement rule of core.go:89: no best yet, or a score at most the best's. */
  predicate Replaces(best: Option<Summary>, averagePos: int) {
    best.None? || best.value.averagePos >= averagePos
  }

  /** Group `s'` of round `k'` has been visited once rounds `..k-1` and keys `vis` of round `k` are done. */
  ghost predicate Seen(k: int, vis: set<string>, k': int, s': string) {
    k' < k || (k' == k && s' in vis)
  }

  /**
   What the search knows after visiting the groups `Seen` describes: with no best,
   none of them qualified; otherwise the best is one of them, qualifies, scores
   lowest among them, and strictly below every visited qualifier of a later round.
   */
  ghost predicate BestSoFar(names: seq<string>, ts: seq<Table>, trim: string, minMatch: int,
                            k: int, vis: set<string>, best: Option<Summary>, bk: int, bs: string)
  {
    && (best.None? ==>
          forall k', s' | Seen(k, vis, k', s') :: !QualifiesIn(names, ts, trim, minMatch, k', s'))
    && (best.Some? ==>
          && Seen(k, vis, bk, bs)
          && QualifiesIn(names, ts, trim, minMatch, bk, bs)
          && best.value == SummaryOf(names, ts[bk], bs)
          && (forall k', s' | Seen(k, vis, k', s') && QualifiesIn(names, ts, trim, minMatch, k', s') ::
                best.value.averagePos <= Score(names, ts[k'], s'))
          && (forall k', s' | bk < k' && Seen(k, vis, k', s') && QualifiesIn(names, ts, trim, minMatch, k', s') ::
                best.value.averagePos < Score(names, ts[k'], s')))
  }

  /** Visiting a group that does not qualify changes nothing. */
  lemma VisitNonQualifying(names: seq<string>, ts: seq<Table>, trim: string, minMatch: int,
                           k: int, vis: set<string>, best: Option<Summary>, bk: int, bs: string, s: string)
    requires BestSoFar(names, ts, trim, minMatch, k, vis, best, bk, bs)
    requires !QualifiesIn(names, ts, trim, minMatch, k, s)
    ensures BestSoFar(names, ts, trim, minMatch, k, vis + {s}, best, bk, bs)
  {
  }

  /** A qualifying group that scores at most the best (or is the first) becomes the best. */
  lemma VisitReplace(names: seq<string>, ts: seq<Table>, trim: string, minMatch: int,
                     k: int, vis: set<string>, best: Option<Summary>, bk: int, bs: string, s: string)
    requires BestSoFar(names, ts, trim, minMatch, k, vis, best, bk, bs)
    requires best.Some? ==> bk <= k
    requires QualifiesIn(names, ts, trim, minMatch, k, s)
    requires Replaces(best, Score(names, ts[k], s))
    ensures BestSoFar(names, ts, trim, minMatch, k, vis + {s}, Some(SummaryOf(names, ts[k], s)), k, s)
  {
  }

  /** A qualifying group that scores above the best leaves the best in place. */
  lemma VisitKeep(names: seq<string>, ts: seq<Table>, trim: string, minMatch: int,
                  k: int, vis: set<string>, best: Option<Summary>, bk: int, bs: string, s: string)
    requires BestSoFar(names, ts, trim, minMatch, k, vis, best, bk, bs)
    requires QualifiesIn(names, ts, trim, minMatch, k, s)
    requires !Replaces(best, Score(names, ts[k], s))
    ensures BestSoFar(names, ts, trim, minMatch, k, vis + {s}, best, bk, bs)
  {
  }

  /** Once every key of round `k` is visited, the search has seen all of rounds `..k`. */
  lemma FinishRound(names: seq<string>, ts: seq<Table>, trim: string, minMatch: int,
                    k: int, best: Option<Summary>, bk: int, bs: string)
    requires 0 <= k < |ts|
    requires BestSoFar(names, ts, trim, minMatch, k, ts[k].Keys, best, bk, bs)
    ensures BestSoFar(names, ts, trim, minMatch, k + 1, {}, best, bk, bs)
  {
    forall k', s' | Seen(k + 1, {}, k', s') && QualifiesIn(names, ts, trim, minMatch, k', s')
      ensures Seen(k, ts[k].Keys, k', s')
    {
    }
  }

  /** After every round, no best means nothing qualified, and a best is a winner. */
  lemma AllRoundsSeen(names: seq<string>, ts: seq<Table>, trim: string, minMatch: int,
                      best: Option<Summary>, bk: int, bs: string)
    requires BestSoFar(names, ts, trim, minMatch, |ts|, {}, best, bk, bs)
    ensures best.None? ==> NoneQualify(names, ts, trim, minMatch)
    ensures best.Some? ==> Winner(names, ts, trim, minMatch, bk, bs)
  {
    if best.Some? {
      forall k', s' | QualifiesIn(names, ts, trim, minMatch, k', s')
        ensures Score(names, ts[bk], bs) <= Score(names, ts[k'], s')
      {
        assert Seen(|ts|, {}, k', s');
      }
      forall k', s' | bk < k' && QualifiesIn(names, ts, trim, minMatch, k', s')
        ensures Score(names, ts[bk], bs) < Score(names, ts[k'], s')
      {
        assert Seen(|ts|, {}, k', s');
      }
    }
  }

  /**
   While the table of round `k` is non-empty, it is `ts[k]`, it is well formed,
   and the rounds after it are those of the survivors.
   */
  lemma AdvanceRound(names: seq<string>, stopWords: seq<string>, check: StopCheck, trim: string, ts: seq<Table>,
                     cands: seq<seq<Match>>, L: nat, k: nat)
    requires ts == AllRounds(names, stopWords, check, trim)
    requires Valid(names, cands, L, trim) && AllFit(names, cands)
    requires L == k + 1 && L <= MaxLen(names) + 1
    requires k <= |ts| && ts[k..] == RoundsFrom(names, stopWords, check, trim, cands, L)
    requires |Group(names, cands)| > 0
    ensures k < |ts| && ts[k] == Group(names, cands)
    ensures TableOK(names, Group(names, cands), k + 1, trim)
    ensures Valid(names, Next(names, stopWords, check, cands, Group(names, cands)), L + 1, trim)
    ensures AllFit(names, Next(names, stopWords, check, cands, Group(names, cands)))
    ensures L + 1 <= MaxLen(names) + 1
    ensures ts[k + 1..] == RoundsFrom(names, stopWords, check, trim, Next(names, stopWords, check, cands, Group(names, cands)), L + 1)
  {
    var table := Group(names, cands);
    RoundsFromNonEmpty(names, stopWords, check, trim, cands, L);
    RoundsFromUnfold(names, stopWords, check, trim, cands, L);
    var next := Next(names, stopWords, check, cands, table);
    ValidAllFit(names, next, L + 1, trim);
    var later := RoundsFrom(names, stopWords, check, trim, next, L + 1);
    assert ts[k..] == [table] + later;
    assert ts[k] == ts[k..][0];
    assert ts[k + 1..] == ts[k..][1..];
    RoundOK(names, stopWords, check, trim, k);
  }

  /** When the table is empty, every round has been visited. */
  lemma LastRound(names: seq<string>, stopWords: seq<string>, check: StopCheck, trim: string, ts: seq<Table>,
                  cands: seq<seq<Match>>, L: nat, k: nat)
    requires Valid(names, cands, L, trim) && AllFit(names, cands)
    requires L <= MaxLen(names) + 1
    requires k <= |ts| && ts[k..] == RoundsFrom(names, stopWords, check, trim, cands, L)
    requires |Group(names, cands)| == 0
    ensures k == |ts|
  {
    RoundsFromNonEmpty(names, stopWords, check, trim, cands, L);
  }

  /** With no names there are no candidates and no rounds. */
  lemma NoNamesNoRounds(stopWords: seq<string>, check: StopCheck, trim: string)
    ensures AllRounds([], stopWords, check, trim) == []
  {
    SeedsValid([], stopWords, trim);
    assert Seeds([], stopWords, trim) == [];
    assert Group([], []) == map[];
  }

  /** A well-formed key: its length, its name indices, and its non-empty lists. */
  lemma KeyFacts(names: seq<string>, t: Table, s: string, len: nat, trim: string)
    requires KeyOK(names, t, s, len, trim)
    ensures s in t && |s| == len
    ensures forall ni | ni in t[s] :: ni < |names| && |t[s][ni]| > 0
  {
    forall ni | ni in t[s] ensures ni < |names| && |t[s][ni]| > 0 {
      assert EntryOK(names, t[s], s, ni, len, trim);
    }
  }

  /**
   The first candidate recorded for `names[0]` in a group's summary (core.go:78-87)
   spells the group's key from a byte outside the trim set.
   */
  lemma HeadSlice(names: seq<string>, g: map<nat, seq<Match>>, s: string, len: nat, trim: string)
    requires |names| > 0 && EntryOK(names, g, s, 0, len, trim)
    ensures var ms := FirstMatches(g, |names|);
            && |ms| == |names|
            && ms[0].pos < ms[0].pos + ms[0].len <= |names[0]|
            && names[0][ms[0].pos..ms[0].pos + ms[0].len] == s
            && names[0][ms[0].pos] !in trim
  {
    EntryHead(names, g, s, 0, len, trim);
    FirstMatchesSpec(g, |names|);
    assert FirstMatches(g, |names|)[0] == g[0][0];
  }

  /**
   The visit of one key `s` of round `k` (core.go:69-95): a group missing from
   some name is skipped, a qualifying group is scored, and it becomes the best
   when `Replaces` says so.
   */
  method Visit(names: seq<string>, ghost ts: seq<Table>, trim: string, minMatch: int, table: Table,
               ghost k: nat, ghost vis: set<string>, s: string,
               best: Option<Summary>, ghost bk: int, ghost bs: string)
    returns (best': Option<Summary>, ghost bk': int, ghost bs': string)
    requires k < |ts| && ts[k] == table
    requires KeyOK(names, table, s, k + 1, trim)
    requires best.Some? ==> bk <= k
    requires BestSoFar(names, ts, trim, minMatch, k, vis, best, bk, bs)
    ensures best'.Some? ==> bk' <= k
    ensures best.Some? ==> best'.Some? && best'.value.averagePos <= best.value.averagePos
    ensures if QualifiesIn(names, ts, trim, minMatch, k, s) && Replaces(best, Score(names, table, s))
            then best' == Some(SummaryOf(names, table, s))
            else best' == best
    ensures BestSoFar(names, ts, trim, minMatch, k, vis + {s}, best', bk', bs')
  {
    best', bk', bs' := best, bk, bs;
    KeyFacts(names, table, s, k + 1, trim);
    CountComplete(table, s, |names|);
    if |table[s]| < |names| {
      VisitNonQualifying(names, ts, trim, minMatch, k, vis, best, bk, bs, s);
      return;
    }
    if |s| >= minMatch && s[|s| - 1] !in trim {
      var first := FirstMatches(table[s], |names|);
      var averagePos := (SumPos(first) * 100) / |names|;
      assert averagePos == Score(names, table, s);
      if Replaces(best, averagePos) {
        VisitReplace(names, ts, trim, minMatch, k, vis, best, bk, bs, s);
        best' := Some(Summary(first, averagePos));
        bk' := k;
        bs' := s;
        assert best'.value == SummaryOf(names, table, s);
      } else {
        VisitKeep(names, ts, trim, minMatch, k, vis, best, bk, bs, s);
      }
    } else {
      VisitNonQualifying(names, ts, trim, minMatch, k, vis, best, bk, bs, s);
    }
  }

  /**
   One pass over the groups of round `k` (core.go:68-95), in whatever order the
   keys are drawn; the best never gets worse.
   */
  method ScoreRound(names: seq<string>, ghost ts: seq<Table>, trim: string, minMatch: int, table: Table,
                    ghost k: nat, best: Option<Summary>, ghost bk: int, ghost bs: string)
    returns (best': Option<Summary>, ghost bk': int, ghost bs': string)
    requires k < |ts| && ts[k] == table
    requires TableOK(names, table, k + 1, trim)
    requires best.Some? ==> bk < k
    requires BestSoFar(names, ts, trim, minMatch, k, {}, best, bk, bs)
    ensures best'.Some? ==> bk' <= k
    ensures best.Some? ==> best'.Some? && best'.value.averagePos <= best.value.averagePos
    ensures BestSoFar(names, ts, trim, minMatch, k + 1, {}, best', bk', bs')
  {
    best', bk', bs' := best, bk, bs;
    var keys := table.Keys;
    ghost var vis: set<string> := {};
    while keys != {}
      invariant keys <= table.Keys && vis <= table.Keys
      invariant forall x | x in table :: x in vis <==> x !in keys
      invariant best'.Some? ==> bk' <= k
      invariant best.Some? ==> best'.Some? && best'.value.averagePos <= best.value.averagePos
      invariant BestSoFar(names, ts, trim, minMatch, k, vis, best', bk', bs')
      decreases keys
    {
      var s :| s in keys;
      assert KeyOK(names, table, s, k + 1, trim);
      best', bk', bs' := Visit(names, ts, trim, minMatch, table, k, vis, s, best', bk', bs');
      keys := keys - {s};
      vis := vis + {s};
    }
    assert vis == table.Keys;
    FinishRound(names, ts, trim, minMatch, k, best', bk', bs');
  }

  /**
   The round loop of core.go:66-128 over non-empty `names`, visiting every round
   until a table is empty: afterwards no best means no group of any round
   qualified, and a best is the summary of a winner.
   */
  method SearchRounds(names: seq<string>, stopWords: seq<string>, check: StopCheck, trim: string, minMatch: int)
    returns (best: Option<Summary>, ghost bk: int, ghost bs: string)
    requires |names| > 0
    ensures best.None? ==> NoneQualify(names, AllRounds(names, stopWords, check, trim), trim, minMatch)
    ensures best.Some? ==> Winner(names, AllRounds(names, stopWords, check, trim), trim, minMatch, bk, bs)
    ensures best.Some? ==> best.value == SummaryOf(names, AllRounds(names, stopWords, check, trim)[bk], bs)
  {
    ghost var ts := AllRounds(names, stopWords, check, trim);
    SeedsValid(names, stopWords, trim);
    var cands := Seeds(names, stopWords, trim);
    var L := 1;
    ValidAllFit(names, cands, L, trim);
    var table := Group(names, cands);
    best := None;
    ghost var k := 0;
    bk, bs := 0, "";
    while |table| > 0
      invariant Valid(names, cands, L, trim) && AllFit(names, cands)
      invariant L == k + 1 && L <= MaxLen(names) + 1
      invariant table == Group(names, cands)
      invariant k <= |ts| && ts[k..] == RoundsFrom(names, stopWords, check, trim, cands, L)
      invariant best.Some? ==> bk < k
      invariant BestSoFar(names, ts, trim, minMatch, k, {}, best, bk, bs)
      decreases MaxLen(names) + 1 - L
    {
      AdvanceRound(names, stopWords, check, trim, ts, cands, L, k);
      best, bk, bs := ScoreRound(names, ts, trim, minMatch, table, k, best, bk, bs);
      cands := Next(names, stopWords, check, cands, table);
      L := L + 1;
      k := k + 1;
      table := Group(names, cands);
    }
    LastRound(names, stopWords, check, trim, ts, cands, L, k);
    AllRoundsSeen(names, ts, trim, minMatch, best, bk, bs);
  }

  /**
   The search of core.go:14-137, growth testing the byte `check` names. The
   result is empty exactly when no group of any round qualifies; otherwise it
   is a winner, so it occurs in every name, is at least `minMatch` bytes long,
   neither begins nor ends with a trim byte, and sits where growth found no
   stop word.
   */
  method SplitWith(names: seq<string>, stopWords: seq<string>, check: StopCheck, trim: string, minMatch: int) returns (r: string)
    ensures |names| == 0 ==> r == ""
    ensures r == "" <==> NoneQualify(names, AllRounds(names, stopWords, check, trim), trim, minMatch)
    ensures r != "" ==> exists k, s :: Winner(names, AllRounds(names, stopWords, check, trim), trim, minMatch, k, s) && r == s
    ensures r != "" ==> |r| >= minMatch && r[0] !in trim && r[|r| - 1] !in trim
    ensures r != "" ==> forall ni | 0 <= ni < |names| :: IsSubstring(r, names[ni])
    ensures r != "" ==> |names| > 0 && exists p :: OccursAt(r, names[0], p) && StopFree(names[0], stopWords, check, p, |r|)
  {
    if |names| == 0 {
      NoNamesNoRounds(stopWords, check, trim);
      return "";
    }
    var best, bk, bs := SearchRounds(names, stopWords, check, trim, minMatch);
    if best.None? {
      return "";
    }
    RoundResult(names, stopWords, check, trim, minMatch, best.value, bk, bs);
    ResultStopFree(names, stopWords, check, trim, minMatch, best.value, bk, bs);
    var m := best.value.matches[0];
    var prefix := names[0][m.pos..m.pos + m.len];
    r := Trim(prefix, trim);
    assert OccursAt(r, names[0], m.pos);
  }

  /**
   `CommonPrefixSplit` of core.go:14-137 as written: growth tests a candidate's
   last byte, so a stop word may begin at the result's last byte, though at no
   earlier byte of it.
   */
  method CommonPrefixSplit(names: seq<string>, stopWords: seq<string>, trim: string, minMatch: int) returns (r: string)
    ensures |names| == 0 ==> r == ""
    ensures r == "" <==> NoneQualify(names, AllRounds(names, stopWords, LastByte, trim), trim, minMatch)
    ensures r != "" ==> exists k, s :: Winner(names, AllRounds(names, stopWords, LastByte, trim), trim, minMatch, k, s) && r == s
    ensures r != "" ==> |r| >= minMatch && r[0] !in trim && r[|r| - 1] !in trim
    ensures r != "" ==> forall ni | 0 <= ni < |names| :: IsSubstring(r, names[ni])
    ensures r != "" ==> |names| > 0 && exists p :: OccursAt(r, names[0], p) && StopFree(names[0], stopWords, LastByte, p, |r|)
  {
    r := SplitWith(names, stopWords, LastByte, trim, minMatch);
  }

  /**
   The search with growth testing the byte it would add: no stop word begins at
   any byte of the result, so the result never holds the start of a stop word.
   */
  method CommonPrefixSplitClean(names: seq<string>, stopWords: seq<string>, trim: string, minMatch: int) returns (r: string)
    ensures r == "" <==> NoneQualify(names, AllRounds(names, stopWords, NextByte, trim), trim, minMatch)
    ensures r != "" ==> exists k, s :: Winner(names, AllRounds(names, stopWords, NextByte, trim), trim, minMatch, k, s) && r == s
    ensures r != "" ==> forall ni | 0 <= ni < |names| :: IsSubstring(r, names[ni])
    ensures r != "" ==> |names| > 0
    ensures r != "" ==> exists p :: OccursAt(r, names[0], p) && forall j | p <= j < p + |r| :: StopSkip(names[0], j, stopWords) == 0
  {
    r := SplitWith(names, stopWords, NextByte, trim, minMatch);
  }

  /** `BestResult` for the summary of a qualifying group of round `k`. */
  lemma RoundResult(names: seq<string>, stopWords: seq<string>, check: StopCheck, trim: string, minMatch: int,
                    best: Summary, k: int, s: string)
    requires QualifiesIn(names, AllRounds(names, stopWords, check, trim), trim, minMatch, k, s)
    requires best == SummaryOf(names, AllRounds(names, stopWords, check, trim)[k], s)
    ensures |best.matches| == |names| > 0
    ensures best.matches[0].pos + best.matches[0].len <= |names[0]|
    ensures var m := best.matches[0];
            var r := Trim(names[0][m.pos..m.pos + m.len], trim);
            && r == s
            && |r| == k + 1 && |r| >= minMatch && r[0] !in trim && r[|r| - 1] !in trim
            && (forall ni | 0 <= ni < |names| :: IsSubstring(r, names[ni]))
  {
    var ts := AllRounds(names, stopWords, check, trim);
    RoundOK(names, stopWords, check, trim, k);
    assert KeyOK(names, ts[k], s, k + 1, trim);
    BestResult(names, ts[k], k + 1, trim, minMatch, best, s);
  }

  /**
   The candidate the answer is sliced from (core.go:133) has no stop word
   beginning at any of its bytes but the last.
   */
  lemma ResultStopFree(names: seq<string>, stopWords: seq<string>, check: StopCheck, trim: string, minMatch: int,
                       best: Summary, k: int, s: string)
    requires QualifiesIn(names, AllRounds(names, stopWords, check, trim), trim, minMatch, k, s)
    requires best == SummaryOf(names, AllRounds(names, stopWords, check, trim)[k], s)
    ensures |best.matches| == |names| > 0
    ensures best.matches[0].len == k + 1
    ensures OccursAt(s, names[0], best.matches[0].pos)
    ensures StopFree(names[0], stopWords, check, best.matches[0].pos, k + 1)
  {
    var ts := AllRounds(names, stopWords, check, trim);
    RoundOK(names, stopWords, check, trim, k);
    assert KeyOK(names, ts[k], s, k + 1, trim);
    KeyFacts(names, ts[k], s, k + 1, trim);
    RoundStopFree(names, stopWords, check, trim, k);
    HeadStopFree(names, stopWords, check, ts[k], s, k + 1, trim, best);
  }

  /** `ResultStopFree` for one key of a stop-free table. */
  lemma HeadStopFree(names: seq<string>, stopWords: seq<string>, check: StopCheck, t: Table, s: string, len: nat, trim: string, best: Summary)
    requires |names| > 0 && KeyOK(names, t, s, len, trim) && 0 in t[s]
    requires TableStopFree(names, stopWords, check, t)
    requires best == SummaryOf(names, t, s)
    ensures |best.matches| == |names|
    ensures best.matches[0].len == len
    ensures OccursAt(s, names[0], best.matches[0].pos)
    ensures StopFree(names[0], stopWords, check, best.matches[0].pos, len)
  {
    assert EntryOK(names, t[s], s, 0, len, trim);
    EntryHead(names, t[s], s, 0, len, trim);
    HeadSlice(names, t[s], s, len, trim);
    FirstMatchesSpec(t[s], |names|);
    assert best.matches[0] == t[s][0][0];
    assert t[s][0][0] in t[s][0];
  }

  /**
   The answer core.go:133-136 builds from the summary of a qualifying group (the
   best one, in the search) is that group's key: the slice of `names[0]` at its
   first candidate, which trimming leaves unchanged.
   */
  lemma BestResult(names: seq<string>, t: Table, len: nat, trim: string, minMatch: int, best: Summary, s: string)
    requires KeyOK(names, t, s, len, trim)
    requires Qualifies(names, t, s, trim, minMatch)
    requires best == SummaryOf(names, t, s)
    ensures |best.matches| == |names| > 0
    ensures best.matches[0].pos + best.matches[0].len <= |names[0]|
    ensures var m := best.matches[0];
            var r := Trim(names[0][m.pos..m.pos + m.len], trim);
            && r == s
            && |r| == len > 0 && |r| >= minMatch && r[0] !in trim && r[|r| - 1] !in trim
            && (forall ni | 0 <= ni < |names| :: IsSubstring(r, names[ni]))
  {
    QualifierShape(names, t, s, len, trim, minMatch);
    var some :| some in t[s];
    assert EntryOK(names, t[s], s, some, len, trim);
    assert 0 in t[s];
    assert EntryOK(names, t[s], s, 0, len, trim);
    HeadSlice(names, t[s], s, len, trim);
    assert best.matches == FirstMatches(t[s], |names|);
    var m := best.matches[0];
    assert names[0][m.pos..m.pos + m.len] == s;
    TrimKeepsClean(s, trim);
    assert Trim(names[0][m.pos..m.pos + m.len], trim) == s;
  }
}
