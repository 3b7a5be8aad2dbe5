/**
 A small instance of `CommonPrefixSplit`: two identical names "ab", no stop
 words, no trim bytes. Both length-1 groups occur in both names, but growing
 either would reach the end of the name (core.go:109-112), so there is one
 round and the earlier group "a" wins with score 0.
 */
module SearchExamples {
  import opened Wrappers
  import opened Strings
  import opened Candidates
  import opened Groups
  import opened Rounds
  import opened Search

  lemma SeedsAB(names: seq<string>)
    requires names == ["ab", "ab"]
    ensures Seeds(names, [], "") == [[Match(0, 1), Match(1, 1)], [Match(0, 1), Match(1, 1)]]
  {
    assert StopSkip("ab", 0, []) == 0;
    assert StopSkip("ab", 1, []) == 0;
    assert SeedName("ab", [], "", 2) == [];
    assert SeedName("ab", [], "", 1) == [Match(1, 1)];
    assert SeedName("ab", [], "", 0) == [Match(0, 1), Match(1, 1)];
  }

  lemma FilterAB(s: string)
    ensures Filter("ab", [Match(0, 1), Match(1, 1)], s) ==
            (if s == "a" then [Match(0, 1)] else if s == "b" then [Match(1, 1)] else [])
  {
    assert Spell("ab", Match(0, 1)) == "a";
    assert Spell("ab", Match(1, 1)) == "b";
    assert [Match(0, 1), Match(1, 1)][1..] == [Match(1, 1)];
    assert Filter("ab", [Match(1, 1)], s) == (if s == "b" then [Match(1, 1)] else []);
  }

  /** The lists of the only round's table: "a" at 0 and "b" at 1 in both names. */
  lemma LookupAB(names: seq<string>, t: Table)
    requires names == ["ab", "ab"]
    requires t == Group(names, Seeds(names, [], ""))
    ensures Tidy(t)
    ensures forall s, ni: nat :: Lookup(t, s, ni) ==
              (if ni < 2 && s == "a" then [Match(0, 1)] else if ni < 2 && s == "b" then [Match(1, 1)] else [])
  {
    var cands := Seeds(names, [], "");
    SeedsAB(names);
    SeedsValid(names, [], "");
    ValidAllFit(names, cands, 1, "");
    GroupSpec(names, cands);
    forall s, ni: nat ensures Lookup(t, s, ni) ==
        (if ni < 2 && s == "a" then [Match(0, 1)] else if ni < 2 && s == "b" then [Match(1, 1)] else [])
    {
      FilterAB(s);
    }
  }

  /** The keys of the only round's table are "a" and "b", each present for both names. */
  lemma KeysAB(names: seq<string>, t: Table)
    requires names == ["ab", "ab"]
    requires t == Group(names, Seeds(names, [], ""))
    ensures forall s :: s in t <==> s == "a" || s == "b"
    ensures forall s, ni: nat | s in t :: ni in t[s] <==> ni < 2
  {
    LookupAB(names, t);
    forall s ensures s in t <==> s == "a" || s == "b" {
      if s in t {
        var ni :| ni in t[s];
        TidyLookup(t, s, ni);
      } else {
        TidyLookup(t, s, 0);
      }
    }
    forall s, ni: nat | s in t ensures ni in t[s] <==> ni < 2 {
      TidyLookup(t, s, ni);
    }
  }

  /** Nothing survives the first round, so it is the only one. */
  lemma RoundsAB(names: seq<string>)
    requires names == ["ab", "ab"]
    ensures AllRounds(names, [], LastByte, "") == [Group(names, Seeds(names, [], ""))]
  {
    var cands := Seeds(names, [], "");
    SeedsAB(names);
    SeedsValid(names, [], "");
    ValidAllFit(names, cands, 1, "");
    var t := Group(names, cands);
    KeysAB(names, t);
    assert "a" in t;
    var next := Next(names, [], LastByte, cands, t);
    assert Survivors("ab", [], LastByte, [Match(1, 1)], t, 2) == [];
    assert Survivors("ab", [], LastByte, [Match(0, 1), Match(1, 1)], t, 2) == [];
    assert next == [[], []];
    NextValid(names, [], LastByte, cands, t, 1, "");
    ValidAllFit(names, next, 2, "");
    GroupSpec(names, next);
    var t2 := Group(names, next);
    forall s | s in t2 ensures false {
      var ni :| ni in t2[s];
      TidyLookup(t2, s, ni);
    }
    assert |t2| == 0;
    RoundsFromUnfold(names, [], LastByte, "", cands, 1);
  }

  /** Group "a" (at 0 in both names) and group "b" (at 1) qualify and score `100 * p`. */
  lemma ScoreAB(names: seq<string>, t: Table, s: string, p: nat)
    requires names == ["ab", "ab"]
    requires t == Group(names, Seeds(names, [], ""))
    requires (s == "a" && p == 0) || (s == "b" && p == 1)
    ensures Qualifies(names, t, s, "", 0) && Score(names, t, s) == 100 * p
  {
    LookupAB(names, t);
    KeysAB(names, t);
    assert s in t && 0 in t[s] && 1 in t[s];
    assert t[s][0] == Lookup(t, s, 0);
    assert t[s][1] == Lookup(t, s, 1);
    ScoreTwin(names, t, s, p, 1);
  }

  /** A group at position `p` in both of two names scores `100 * p`. */
  lemma ScoreTwin(names: seq<string>, t: Table, s: string, p: nat, len: nat)
    requires |names| == 2 && |s| > 0
    requires s in t && 0 in t[s] && 1 in t[s]
    requires t[s][0] == [Match(p, len)] && t[s][1] == [Match(p, len)]
    ensures Qualifies(names, t, s, "", 0) && Score(names, t, s) == 100 * p
  {
    assert Complete(t, s, 2);
    FirstMatchesSpec(t[s], 2);
    var fm := FirstMatches(t[s], 2);
    assert fm[0] == Match(p, len) && fm[1] == Match(p, len);
    assert fm[..1][..0] == [];
    assert SumPos(fm[..1]) == p;
    assert SumPos(fm) == 2 * p;
  }

  /** Both groups qualify; "a" scores 0 and "b" scores 100. */
  lemma ScoresAB(names: seq<string>, t: Table)
    requires names == ["ab", "ab"]
    requires t == Group(names, Seeds(names, [], ""))
    ensures Qualifies(names, t, "a", "", 0) && Score(names, t, "a") == 0
    ensures Qualifies(names, t, "b", "", 0) && Score(names, t, "b") == 100
    ensures forall s :: Qualifies(names, t, s, "", 0) ==> s == "a" || s == "b"
  {
    ScoreAB(names, t, "a", 0);
    ScoreAB(names, t, "b", 1);
    KeysAB(names, t);
  }

  /** "a" is the winner of the search, and the only one. */
  lemma WinnerAB(names: seq<string>)
    requires names == ["ab", "ab"]
    ensures Winner(names, AllRounds(names, [], LastByte, ""), "", 0, 0, "a")
    ensures forall k, s :: Winner(names, AllRounds(names, [], LastByte, ""), "", 0, k, s) ==> s == "a"
  {
    var ts := AllRounds(names, [], LastByte, "");
    var t := Group(names, Seeds(names, [], ""));
    RoundsAB(names);
    ScoresAB(names, t);
    assert ts[0] == t;
    forall k', s' | QualifiesIn(names, ts, "", 0, k', s') ensures Score(names, ts[0], "a") <= Score(names, ts[k'], s') {
      assert k' == 0;
    }
    forall k, s | Winner(names, ts, "", 0, k, s) ensures s == "a" {
      assert k == 0;
      assert QualifiesIn(names, ts, "", 0, 0, "a");
    }
  }

  /**
   The search over two copies of "ab" reports "a": the common "ab" is never
   formed, because a grown candidate may not reach the last byte of its name.
   */
  method ExactNames() returns (r: string)
    ensures r == "a"
  {
    var names := ["ab", "ab"];
    r := CommonPrefixSplit(names, [], "", 0);
    WinnerAB(names);
    assert QualifiesIn(names, AllRounds(names, [], LastByte, ""), "", 0, 0, "a");
  }

  /** The empty-names case of core_test.go:82-88. */
  method NoNames() returns (r: string)
    ensures r == ""
  {
    r := CommonPrefixSplit([], [" - ", "] ", "["], "_- ", 3);
  }

  /**
   Seeding "data_final.csv" with stop word "final" and trim set "_- "
   (core_test.go:66-71): the trim byte at 4 is skipped and the stop word at 5
   is jumped over, so seeding resumes at byte 10.
   */
  lemma SeedsWithStopWord(name: string)
    requires name == "data_final.csv"
    ensures SeedName(name, ["final"], "_- ", 0) ==
            [Match(0, 1), Match(1, 1), Match(2, 1), Match(3, 1), Match(10, 1), Match(11, 1), Match(12, 1), Match(13, 1)]
  {
    var sw := ["final"];
    SeedsAfterStopWord(name);
    assert StopSkip(name, 5, sw) == 5 by {
      assert name[5..10] == "final";
    }
    assert SeedName(name, sw, "_- ", 5) == SeedName(name, sw, "_- ", 10);
    assert name[4] in "_- ";
    assert SeedName(name, sw, "_- ", 4) == SeedName(name, sw, "_- ", 5);
    NoStopAt(name, sw, 3);
    assert SeedName(name, sw, "_- ", 3) == [Match(3, 1), Match(10, 1), Match(11, 1), Match(12, 1), Match(13, 1)];
    NoStopAt(name, sw, 2);
    assert SeedName(name, sw, "_- ", 2) == [Match(2, 1), Match(3, 1), Match(10, 1), Match(11, 1), Match(12, 1), Match(13, 1)];
    NoStopAt(name, sw, 1);
    assert SeedName(name, sw, "_- ", 1) == [Match(1, 1), Match(2, 1), Match(3, 1), Match(10, 1), Match(11, 1), Match(12, 1), Match(13, 1)];
    NoStopAt(name, sw, 0);
    assert SeedName(name, sw, "_- ", 0) == [Match(0, 1), Match(1, 1), Match(2, 1), Match(3, 1), Match(10, 1), Match(11, 1), Match(12, 1), Match(13, 1)];
  }

  /** The scan of "data_final.csv" from byte 10, just past the stop word "final". */
  lemma SeedsAfterStopWord(name: string)
    requires name == "data_final.csv"
    ensures SeedName(name, ["final"], "_- ", 10) == [Match(10, 1), Match(11, 1), Match(12, 1), Match(13, 1)]
  {
    var sw := ["final"];
    assert SeedName(name, sw, "_- ", 14) == [];
    NoStopAt(name, sw, 13);
    assert SeedName(name, sw, "_- ", 13) == [Match(13, 1)];
    NoStopAt(name, sw, 12);
    assert SeedName(name, sw, "_- ", 12) == [Match(12, 1), Match(13, 1)];
    NoStopAt(name, sw, 11);
    assert SeedName(name, sw, "_- ", 11) == [Match(11, 1), Match(12, 1), Match(13, 1)];
    NoStopAt(name, sw, 10);
  }

  /** No stop word begins at a byte other than its own first byte. */
  lemma NoStopAt(name: string, sw: seq<string>, i: nat)
    requires sw == ["final"]
    requires i < |name| && name[i] != 'f'
    ensures StopSkip(name, i, sw) == 0
  {
    assert !StopsAt(name, i, "final") by {
      if |name| > i + 5 {
        assert name[i..i + 5][0] == name[i];
      }
    }
    assert sw[1..] == [];
    assert StopSkip(name, i, sw) == LongestStop(name, i, [], 0);
  }

  /**
   A stop word that ends exactly at the end of the name is not recognised
   (the `>` of core.go:49), so its bytes are seeded.
   */
  lemma StopWordAtEnd(name: string)
    requires name == "a_final"
    ensures Match(2, 1) in SeedName(name, ["final"], "_", 0)
  {
    assert !StopsAt(name, 2, "final");
    assert StopSkip(name, 2, ["final"]) == 0;
    assert SeedName(name, ["final"], "_", 1) == SeedName(name, ["final"], "_", 2);
  }
}
