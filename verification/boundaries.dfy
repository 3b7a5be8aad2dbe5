/**
 How far stop words hold candidates back (core.go:47-56 and core.go:100-108). A
 seed never starts where a stop word begins, and a candidate stops growing once
 a stop word begins at the byte growth tests. As written that is the last byte,
 so a stop word may begin at a candidate's last byte but at no earlier byte of
 it; testing the byte growth would add instead keeps stop words out of every
 byte.
 */
module Boundaries {
  import opened Candidates
  import opened Groups
  import opened Rounds

  /**
   No stop word begins at byte `p` of `name`, nor at any later byte of the `len`
   bytes from `p` that growth has tested: all but the last under `LastByte`,
   all of them under `NextByte`.
   */
  predicate StopFree(name: string, stopWords: seq<string>, check: StopCheck, p: nat, len: nat) {
    && StopSkip(name, p, stopWords) == 0
    && forall j: nat | p <= j < p + len - 1 + Ahead(check) :: StopSkip(name, j, stopWords) == 0
  }

  /** Every candidate of every name is stop free. */
  predicate AllStopFree(names: seq<string>, stopWords: seq<string>, check: StopCheck, cands: seq<seq<Match>>) {
    forall ni, m: Match | 0 <= ni < |names| && ni < |cands| && m in cands[ni] :: StopFree(names[ni], stopWords, check, m.pos, m.len)
  }

  /** Every candidate recorded in the table is stop free in its name. */
  predicate TableStopFree(names: seq<string>, stopWords: seq<string>, check: StopCheck, t: Table) {
    forall s: string, ni: nat, m: Match | s in t && ni in t[s] && m in t[s][ni] ::
      ni < |names| && StopFree(names[ni], stopWords, check, m.pos, m.len)
  }

  /** The seeds are stop free. */
  lemma SeedsStopFree(names: seq<string>, stopWords: seq<string>, check: StopCheck, trim: string)
    ensures AllStopFree(names, stopWords, check, Seeds(names, stopWords, trim))
  {
    var cands := Seeds(names, stopWords, trim);
    forall ni, m: Match | 0 <= ni < |names| && ni < |cands| && m in cands[ni]
      ensures StopFree(names[ni], stopWords, check, m.pos, m.len)
    {
      SeedNameExact(names[ni], stopWords, trim, 0);
    }
  }

  /** Growth keeps candidates stop free: the byte it checks becomes a non-last byte. */
  lemma SurvivorsStopFree(name: string, stopWords: seq<string>, check: StopCheck, ms: seq<Match>, t: Table, n: nat, L: nat, trim: string)
    requires ValidList(name, ms, L, trim)
    requires forall m | m in ms :: StopFree(name, stopWords, check, m.pos, m.len)
    ensures forall m | m in Survivors(name, stopWords, check, ms, t, n) :: StopFree(name, stopWords, check, m.pos, m.len)
  {
    SurvivorsSound(name, stopWords, check, ms, t, n, L, trim);
    forall m | m in Survivors(name, stopWords, check, ms, t, n) ensures StopFree(name, stopWords, check, m.pos, m.len) {
      var old_ := Match(m.pos, L);
      assert old_ in ms && Extends(name, stopWords, check, t, n, old_);
      assert StopFree(name, stopWords, check, old_.pos, old_.len);
      assert StopSkip(name, m.pos + L - 1 + Ahead(check), stopWords) == 0;
    }
  }

  lemma NextStopFree(names: seq<string>, stopWords: seq<string>, check: StopCheck, cands: seq<seq<Match>>, t: Table, L: nat, trim: string)
    requires Valid(names, cands, L, trim) && AllFit(names, cands)
    requires AllStopFree(names, stopWords, check, cands)
    ensures AllStopFree(names, stopWords, check, Next(names, stopWords, check, cands, t))
  {
    var next := Next(names, stopWords, check, cands, t);
    forall ni | 0 <= ni < |names|
      ensures forall m: Match | m in next[ni] :: StopFree(names[ni], stopWords, check, m.pos, m.len)
    {
      SurvivorsStopFree(names[ni], stopWords, check, cands[ni], t, |names|, L, trim);
    }
  }

  /** Grouping stop-free candidates gives a stop-free table. */
  lemma GroupStopFree(names: seq<string>, stopWords: seq<string>, check: StopCheck, cands: seq<seq<Match>>)
    requires AllFit(names, cands)
    requires AllStopFree(names, stopWords, check, cands)
    ensures TableStopFree(names, stopWords, check, Group(names, cands))
  {
    var t := Group(names, cands);
    GroupSpec(names, cands);
    forall s: string, ni: nat, m: Match | s in t && ni in t[s] && m in t[s][ni]
      ensures ni < |names| && StopFree(names[ni], stopWords, check, m.pos, m.len)
    {
      assert m in Lookup(t, s, ni);
      assert ni < |names|;
      FilterMembers(names[ni], cands[ni], s);
      assert m in cands[ni];
    }
    assert TableStopFree(names, stopWords, check, t);
  }

  /** Every round's table from stop-free candidates is stop free. */
  lemma {:induction false} RoundFromStopFree(names: seq<string>, stopWords: seq<string>, check: StopCheck, trim: string,
                                             cands: seq<seq<Match>>, L: nat, k: nat)
    requires Valid(names, cands, L, trim)
    requires L <= MaxLen(names) + 1
    requires AllStopFree(names, stopWords, check, cands)
    requires k < |RoundsFrom(names, stopWords, check, trim, cands, L)|
    ensures TableStopFree(names, stopWords, check, RoundsFrom(names, stopWords, check, trim, cands, L)[k])
    decreases k
  {
    RoundsFromUnfold(names, stopWords, check, trim, cands, L);
    var t := Group(names, cands);
    if k == 0 {
      GroupStopFree(names, stopWords, check, cands);
    } else {
      var next := Next(names, stopWords, check, cands, t);
      NextStopFree(names, stopWords, check, cands, t, L, trim);
      RoundFromStopFree(names, stopWords, check, trim, next, L + 1, k - 1);
    }
  }

  /** No candidate of any round has a stop word beginning before its last byte. */
  lemma RoundStopFree(names: seq<string>, stopWords: seq<string>, check: StopCheck, trim: string, k: nat)
    requires k < |AllRounds(names, stopWords, check, trim)|
    ensures TableStopFree(names, stopWords, check, AllRounds(names, stopWords, check, trim)[k])
  {
    SeedsValid(names, stopWords, trim);
    SeedsStopFree(names, stopWords, check, trim);
    RoundFromStopFree(names, stopWords, check, trim, Seeds(names, stopWords, trim), 1, k);
  }
}
