/**
 Two copies of "a[b" with the stop word "[" and no trim bytes. Seeding skips
 the stop word at byte 1, so the seeds are "a" at 0 and "b" at 2. As written
 (core.go:100-108) growth tests the last byte, so "a" grows into "a[" before
 the stop word is noticed; "a[" ties "a" at score 0 in a later round and the
 search reports "a[". Testing the byte growth would add keeps "a" from growing,
 and the search reports "a".
 */
module StopExamples {
  import opened Strings
  import opened Candidates
  import opened Groups
  import opened Rounds
  import opened Search
  import opened SearchExamples

  /** The stop word "[" begins at byte 1 of "a[b" and nowhere else. */
  lemma BracketStops(name: string, i: nat)
    requires name == "a[b"
    ensures StopSkip(name, i, ["["]) == if i == 1 then 1 else 0
  {
    assert ["["][1..] == [];
    if i == 0 {
      assert name[0..1] == "a";
    } else if i == 1 {
      assert name[1..2] == "[";
      assert StopsAt(name, 1, "[");
    }
  }

  lemma SeedsBracket(names: seq<string>)
    requires names == ["a[b", "a[b"]
    ensures Seeds(names, ["["], "") == [[Match(0, 1), Match(2, 1)], [Match(0, 1), Match(2, 1)]]
  {
    var name, sw := "a[b", ["["];
    BracketStops(name, 0);
    BracketStops(name, 1);
    BracketStops(name, 2);
    assert SeedName(name, sw, "", 3) == [];
    assert SeedName(name, sw, "", 2) == [Match(2, 1)];
    assert SeedName(name, sw, "", 1) == [Match(2, 1)];
    assert SeedName(name, sw, "", 0) == [Match(0, 1), Match(2, 1)];
  }

  /**
   Grouping two names with the same candidate list: a key is present exactly
   when the list spells it, and then it holds that sublist for both names.
   */
  lemma TwinGroup(names: seq<string>, cands: seq<seq<Match>>, x: string, ms: seq<Match>, s: string)
    requires names == [x, x] && cands == [ms, ms] && Fits(x, ms)
    ensures AllFit(names, cands)
    ensures s in Group(names, cands) <==> |Filter(x, ms, s)| > 0
    ensures s in Group(names, cands) ==>
              var g := Group(names, cands)[s];
              && 0 in g && 1 in g && g[0] == Filter(x, ms, s) && g[1] == Filter(x, ms, s)
  {
    assert AllFit(names, cands);
    var t := Group(names, cands);
    GroupSpec(names, cands);
    assert Lookup(t, s, 0) == Filter(x, ms, s);
    assert Lookup(t, s, 1) == Filter(x, ms, s);
    TidyLookup(t, s, 0);
    TidyLookup(t, s, 1);
    if s in t {
      var ni :| ni in t[s];
      TidyLookup(t, s, ni);
    }
  }

  lemma FilterSeeds(s: string)
    ensures Filter("a[b", [Match(0, 1), Match(2, 1)], s) ==
            (if s == "a" then [Match(0, 1)] else if s == "b" then [Match(2, 1)] else [])
  {
    assert Spell("a[b", Match(0, 1)) == "a";
    assert Spell("a[b", Match(2, 1)) == "b";
    assert [Match(0, 1), Match(2, 1)][1..] == [Match(2, 1)];
    assert Filter("a[b", [Match(2, 1)], s) == (if s == "b" then [Match(2, 1)] else []);
  }

  /** The first round: "a" at 0 and "b" at 2 in both names, and nothing else. */
  lemma FirstBracket(names: seq<string>, cands: seq<seq<Match>>, t: Table)
    requires names == ["a[b", "a[b"]
    requires cands == [[Match(0, 1), Match(2, 1)], [Match(0, 1), Match(2, 1)]]
    requires AllFit(names, cands) && t == Group(names, cands)
    ensures forall s :: s in t <==> s == "a" || s == "b"
    ensures "a" in t && 0 in t["a"] && 1 in t["a"] && t["a"][0] == [Match(0, 1)] && t["a"][1] == [Match(0, 1)]
    ensures "b" in t && 0 in t["b"] && 1 in t["b"] && t["b"][0] == [Match(2, 1)] && t["b"][1] == [Match(2, 1)]
  {
    var ms := [Match(0, 1), Match(2, 1)];
    forall s ensures s in t <==> s == "a" || s == "b" {
      TwinGroup(names, cands, "a[b", ms, s);
      FilterSeeds(s);
    }
    TwinGroup(names, cands, "a[b", ms, "a");
    FilterSeeds("a");
    TwinGroup(names, cands, "a[b", ms, "b");
    FilterSeeds("b");
  }

  /** As written, "a" grows into "a[" and "b" is dropped at the end of the name. */
  lemma GrowBracket(names: seq<string>, cands: seq<seq<Match>>, t: Table)
    requires names == ["a[b", "a[b"]
    requires cands == [[Match(0, 1), Match(2, 1)], [Match(0, 1), Match(2, 1)]]
    requires AllFit(names, cands) && t == Group(names, cands)
    ensures Next(names, ["["], LastByte, cands, t) == [[Match(0, 2)], [Match(0, 2)]]
  {
    var ms := [Match(0, 1), Match(2, 1)];
    FirstBracket(names, cands, t);
    BracketStops("a[b", 0);
    BracketStops("a[b", 2);
    assert Spell("a[b", Match(0, 1)) == "a" && Complete(t, "a", 2);
    assert Spell("a[b", Match(2, 1)) == "b" && Complete(t, "b", 2);
    assert ms[1..] == [Match(2, 1)];
    assert Survivors("a[b", ["["], LastByte, [Match(2, 1)], t, 2) == [];
    assert Survivors("a[b", ["["], LastByte, ms, t, 2) == [Match(0, 2)];
  }

  /** Testing the byte growth would add, "a" is stopped by the "[" after it. */
  lemma GrowBracketClean(names: seq<string>, cands: seq<seq<Match>>, t: Table)
    requires names == ["a[b", "a[b"]
    requires cands == [[Match(0, 1), Match(2, 1)], [Match(0, 1), Match(2, 1)]]
    requires AllFit(names, cands) && t == Group(names, cands)
    ensures Next(names, ["["], NextByte, cands, t) == [[], []]
  {
    var ms := [Match(0, 1), Match(2, 1)];
    BracketStops("a[b", 1);
    assert ms[1..] == [Match(2, 1)];
    assert Survivors("a[b", ["["], NextByte, [Match(2, 1)], t, 2) == [];
    assert Survivors("a[b", ["["], NextByte, ms, t, 2) == [];
  }

  /** The second round, as written: only "a[" at 0 in both names. */
  lemma SecondBracket(names: seq<string>, cands: seq<seq<Match>>, t: Table)
    requires names == ["a[b", "a[b"]
    requires cands == [[Match(0, 2)], [Match(0, 2)]]
    requires AllFit(names, cands) && t == Group(names, cands)
    ensures forall s :: s in t <==> s == "a["
    ensures "a[" in t && 0 in t["a["] && 1 in t["a["] && t["a["][0] == [Match(0, 2)] && t["a["][1] == [Match(0, 2)]
    ensures Next(names, ["["], LastByte, cands, t) == [[], []]
  {
    var ms := [Match(0, 2)];
    assert Spell("a[b", Match(0, 2)) == "a[";
    forall s ensures s in t <==> s == "a[" {
      TwinGroup(names, cands, "a[b", ms, s);
    }
    TwinGroup(names, cands, "a[b", ms, "a[");
    BracketStops("a[b", 1);
    assert Survivors("a[b", ["["], LastByte, ms, t, 2) == [];
  }

  /** A table grouping no candidates is empty. */
  lemma EmptyGroup(names: seq<string>, cands: seq<seq<Match>>)
    requires |names| == |cands| && forall ni | 0 <= ni < |cands| :: cands[ni] == []
    ensures AllFit(names, cands) && |Group(names, cands)| == 0
  {
    assert AllFit(names, cands);
    var t := Group(names, cands);
    GroupSpec(names, cands);
    forall s | s in t ensures false {
      var ni :| ni in t[s];
      TidyLookup(t, s, ni);
    }
  }

  /** As written there are two rounds: the seeds, then "a[". */
  lemma RoundsBracket(names: seq<string>)
    requires names == ["a[b", "a[b"]
    ensures var c0 := [[Match(0, 1), Match(2, 1)], [Match(0, 1), Match(2, 1)]];
            var c1 := [[Match(0, 2)], [Match(0, 2)]];
            && AllFit(names, c0) && AllFit(names, c1)
            && AllRounds(names, ["["], LastByte, "") == [Group(names, c0), Group(names, c1)]
  {
    var sw := ["["];
    var cands := Seeds(names, sw, "");
    SeedsBracket(names);
    SeedsValid(names, sw, "");
    ValidAllFit(names, cands, 1, "");
    var t0 := Group(names, cands);
    FirstBracket(names, cands, t0);
    assert "a" in t0;
    RoundsFromNonEmpty(names, sw, LastByte, "", cands, 1);
    RoundsFromUnfold(names, sw, LastByte, "", cands, 1);
    GrowBracket(names, cands, t0);
    LastRoundBracket(names, Next(names, sw, LastByte, cands, t0));
  }

  /** As written, the round of "a[" is the last. */
  lemma LastRoundBracket(names: seq<string>, c1: seq<seq<Match>>)
    requires names == ["a[b", "a[b"]
    requires c1 == [[Match(0, 2)], [Match(0, 2)]]
    requires Valid(names, c1, 2, "")
    ensures AllFit(names, c1)
    ensures RoundsFrom(names, ["["], LastByte, "", c1, 2) == [Group(names, c1)]
  {
    var sw := ["["];
    ValidAllFit(names, c1, 2, "");
    var t1 := Group(names, c1);
    SecondBracket(names, c1, t1);
    assert "a[" in t1;
    assert |names[0]| == 3;
    RoundsFromNonEmpty(names, sw, LastByte, "", c1, 2);
    RoundsFromUnfold(names, sw, LastByte, "", c1, 2);
    var c2 := Next(names, sw, LastByte, c1, t1);
    EmptyGroup(names, c2);
    RoundsFromNonEmpty(names, sw, LastByte, "", c2, 3);
  }

  /** With the corrected test there is one round. */
  lemma RoundsBracketClean(names: seq<string>)
    requires names == ["a[b", "a[b"]
    ensures var c0 := [[Match(0, 1), Match(2, 1)], [Match(0, 1), Match(2, 1)]];
            && AllFit(names, c0)
            && AllRounds(names, ["["], NextByte, "") == [Group(names, c0)]
  {
    var sw := ["["];
    var cands := Seeds(names, sw, "");
    SeedsBracket(names);
    SeedsValid(names, sw, "");
    ValidAllFit(names, cands, 1, "");
    var t0 := Group(names, cands);
    FirstBracket(names, cands, t0);
    assert "a" in t0;
    RoundsFromNonEmpty(names, sw, NextByte, "", cands, 1);
    RoundsFromUnfold(names, sw, NextByte, "", cands, 1);
    var c1 := Next(names, sw, NextByte, cands, t0);
    GrowBracketClean(names, cands, t0);
    EmptyGroup(names, c1);
    RoundsFromNonEmpty(names, sw, NextByte, "", c1, 2);
  }

  /**
   Of two rounds, a group of the second that scores 0 and is the only key of
   its table is the only winner, whatever the first round holds.
   */
  lemma LateZeroWins(names: seq<string>, ts: seq<Table>, s1: string)
    requires |names| > 0 && |ts| == 2
    requires Qualifies(names, ts[1], s1, "", 0) && Score(names, ts[1], s1) == 0
    requires forall s :: s in ts[1] ==> s == s1
    ensures Winner(names, ts, "", 0, 1, s1)
    ensures forall k, s :: Winner(names, ts, "", 0, k, s) ==> s == s1
  {
    assert QualifiesIn(names, ts, "", 0, 1, s1);
    forall k', s' | QualifiesIn(names, ts, "", 0, k', s') ensures Score(names, ts[1], s1) <= Score(names, ts[k'], s') {
      ScoreNonNegative(names, ts[k'], s');
    }
    forall k, s | Winner(names, ts, "", 0, k, s) ensures s == s1 {
      ScoreNonNegative(names, ts[k], s);
      assert k == 1;
    }
  }

  lemma ScoreNonNegative(names: seq<string>, t: Table, s: string)
    ensures Score(names, t, s) >= 0
  {
    if |names| > 0 && s in t {
      var sum := SumPos(FirstMatches(t[s], |names|)) * 100;
      assert sum >= 0;
    }
  }

  /** As written, "a[" of the second round is the only winner: it ties the earlier "a" at 0. */
  lemma WinnerBracket(names: seq<string>)
    requires names == ["a[b", "a[b"]
    ensures Winner(names, AllRounds(names, ["["], LastByte, ""), "", 0, 1, "a[")
    ensures forall k, s :: Winner(names, AllRounds(names, ["["], LastByte, ""), "", 0, k, s) ==> s == "a["
  {
    var c1 := [[Match(0, 2)], [Match(0, 2)]];
    RoundsBracket(names);
    var t1 := Group(names, c1);
    SecondBracket(names, c1, t1);
    ScoreTwin(names, t1, "a[", 0, 2);
    LateZeroWins(names, AllRounds(names, ["["], LastByte, ""), "a[");
  }

  /** With the corrected test, "a" of the only round is the only winner. */
  lemma WinnerBracketClean(names: seq<string>)
    requires names == ["a[b", "a[b"]
    ensures Winner(names, AllRounds(names, ["["], NextByte, ""), "", 0, 0, "a")
    ensures forall k, s :: Winner(names, AllRounds(names, ["["], NextByte, ""), "", 0, k, s) ==> s == "a"
  {
    var ts := AllRounds(names, ["["], NextByte, "");
    var c0 := [[Match(0, 1), Match(2, 1)], [Match(0, 1), Match(2, 1)]];
    RoundsBracketClean(names);
    var t0 := Group(names, c0);
    assert ts[0] == t0;
    FirstBracket(names, c0, t0);
    ScoreTwin(names, t0, "a", 0, 1);
    ScoreTwin(names, t0, "b", 2, 1);
    forall k', s' | QualifiesIn(names, ts, "", 0, k', s') ensures Score(names, ts[0], "a") <= Score(names, ts[k'], s') {
      assert k' == 0;
    }
    forall k, s | Winner(names, ts, "", 0, k, s) ensures s == "a" {
      assert k == 0;
      assert QualifiesIn(names, ts, "", 0, 0, "a");
    }
  }
  /**
   The search as written over two copies of "a[b" with stop word "[" reports
   "a[": a stop word begins at the result's last byte.
   */
  method StopWordKept() returns (r: string)
    ensures r == "a["
    ensures OccursAt(r, "a[b", 0) && StopSkip("a[b", |r| - 1, ["["]) > 0
  {
    var names := ["a[b", "a[b"];
    r := CommonPrefixSplit(names, ["["], "", 0);
    WinnerBracket(names);
    assert QualifiesIn(names, AllRounds(names, ["["], LastByte, ""), "", 0, 1, "a[");
    BracketStops("a[b", 1);
  }

  /** The corrected search over the same names reports "a", clear of the stop word. */
  method StopWordLeft() returns (r: string)
    ensures r == "a"
    ensures OccursAt(r, "a[b", 0) && forall j | 0 <= j < |r| :: StopSkip("a[b", j, ["["]) == 0
  {
    var names := ["a[b", "a[b"];
    r := CommonPrefixSplitClean(names, ["["], "", 0);
    WinnerBracketClean(names);
    assert QualifiesIn(names, AllRounds(names, ["["], NextByte, ""), "", 0, 0, "a");
    BracketStops("a[b", 0);
  }
}
