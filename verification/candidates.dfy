/**
 Match candidates of `CommonPrefixSplit` (core.go): one in-progress occurrence of a
 substring in one name, how stop words are recognised, how every name is seeded
 with length-1 candidates, and how a candidate grows by one byte per round.
 */
module Candidates {
  import opened Wrappers

  /** `len` bytes of a name starting at byte `pos` (core.go's `Match`). */
  datatype Match = Match(pos: nat, len: nat)

  /** The bytes of `name` a candidate covers. */
  function Spell(name: string, m: Match): string
    requires m.pos + m.len <= |name|
  {
    name[m.pos..m.pos + m.len]
  }

  /**
   Stop word `w` begins at `at` and, as core.go:49 and core.go:102 test with `>`,
   ends strictly before the end of `name`.
   */
  predicate StopsAt(name: string, at: nat, w: string) {
    |name| > at + |w| && name[at..at + |w|] == w
  }

  /** Go's loop over the stop words, keeping the longest length that begins at `at` in `acc`. */
  function LongestStop(name: string, at: nat, stopWords: seq<string>, acc: nat): nat
    decreases |stopWords|
  {
    if |stopWords| == 0 then acc
    else
      var w := stopWords[0];
      LongestStop(name, at, stopWords[1..], if StopsAt(name, at, w) && |w| > acc then |w| else acc)
  }

  /** The length of the longest stop word that begins at `at`, or 0 when none does (`skip` in core.go). */
  function StopSkip(name: string, at: nat, stopWords: seq<string>): nat
  {
    LongestStop(name, at, stopWords, 0)
  }

  lemma {:induction false} LongestStopSpec(name: string, at: nat, stopWords: seq<string>, acc: nat)
    ensures var skip := LongestStop(name, at, stopWords, acc);
            && acc <= skip
            && (forall w | w in stopWords && StopsAt(name, at, w) :: |w| <= skip)
            && (skip == acc || exists w | w in stopWords :: StopsAt(name, at, w) && |w| == skip)
    decreases |stopWords|
  {
    if |stopWords| > 0 {
      var w := stopWords[0];
      var acc' := if StopsAt(name, at, w) && |w| > acc then |w| else acc;
      LongestStopSpec(name, at, stopWords[1..], acc');
      assert stopWords == [w] + stopWords[1..];
    }
  }

  /**
   The skip is the length of the longest stop word that begins at `at` and ends
   before the end of the name; it is positive exactly when a non-empty one does,
   and it never reaches past the end of the name.
   */
  lemma StopSkipSpec(name: string, at: nat, stopWords: seq<string>)
    ensures var skip := StopSkip(name, at, stopWords);
            && (forall w | w in stopWords && StopsAt(name, at, w) :: |w| <= skip)
            && (skip > 0 ==> exists w | w in stopWords :: StopsAt(name, at, w) && |w| == skip)
            && (skip > 0 <==> exists w | w in stopWords :: StopsAt(name, at, w) && |w| > 0)
            && (skip > 0 ==> at + skip < |name|)
  {
    LongestStopSpec(name, at, stopWords, 0);
  }

  /** Each name's candidates in strictly increasing position. */
  predicate Sorted(ms: seq<Match>) {
    forall j, k | 0 <= j < k < |ms| :: ms[j].pos < ms[k].pos
  }

  /** Every candidate lies inside its name and has at least one byte. */
  predicate Fits(name: string, ms: seq<Match>) {
    forall j | 0 <= j < |ms| :: 1 <= ms[j].len && ms[j].pos + ms[j].len <= |name|
  }

  /** A candidate of length `L` inside `name` whose first byte is not a trim byte. */
  predicate WellPlaced(name: string, m: Match, L: nat, trim: string) {
    m.len == L && m.pos < |name| && m.pos + L <= |name| && name[m.pos] !in trim
  }

  /** The shape every per-name candidate list keeps from round to round. */
  predicate ValidList(name: string, ms: seq<Match>, L: nat, trim: string) {
    && 1 <= L
    && Sorted(ms)
    && forall j | 0 <= j < |ms| :: WellPlaced(name, ms[j], L, trim)
  }

  /** One candidate list per name, all of length `L`. */
  predicate Valid(names: seq<string>, cands: seq<seq<Match>>, L: nat, trim: string) {
    && 1 <= L
    && |cands| == |names|
    && forall ni | 0 <= ni < |names| :: ValidList(names[ni], cands[ni], L, trim)
  }

  lemma ValidListFits(name: string, ms: seq<Match>, L: nat, trim: string)
    requires ValidList(name, ms, L, trim)
    ensures Fits(name, ms)
  {
  }

  /** The head of a sorted list lies strictly left of everything in its tail. */
  lemma HeadLeftOfTail(ms: seq<Match>)
    requires Sorted(ms) && |ms| > 0
    ensures forall x | x in ms[1..] :: ms[0].pos < x.pos
  {
    forall x | x in ms[1..] ensures ms[0].pos < x.pos {
      var j :| 0 <= j < |ms[1..]| && ms[1..][j] == x;
      assert ms[j + 1] == x;
    }
  }

  /** The tail of a valid list is valid and its head is well placed. */
  lemma ValidTail(name: string, ms: seq<Match>, L: nat, trim: string)
    requires ValidList(name, ms, L, trim) && |ms| > 0
    ensures WellPlaced(name, ms[0], L, trim) && ValidList(name, ms[1..], L, trim)
  {
    forall j, k | 0 <= j < k < |ms[1..]| ensures ms[1..][j].pos < ms[1..][k].pos {
      assert ms[1..][j] == ms[j + 1] && ms[1..][k] == ms[k + 1];
    }
    forall j | 0 <= j < |ms[1..]| ensures WellPlaced(name, ms[1..][j], L, trim) {
      assert ms[1..][j] == ms[j + 1];
    }
  }

  /** A list whose head lies strictly left of everything in a sorted tail is sorted. */
  lemma ConsSorted(m: Match, rest: seq<Match>)
    requires Sorted(rest)
    requires forall x | x in rest :: m.pos < x.pos
    ensures Sorted([m] + rest)
  {
    var r := [m] + rest;
    forall j, k | 0 <= j < k < |r| ensures r[j].pos < r[k].pos {
      if j > 0 {
        assert r[j] == rest[j - 1] && r[k] == rest[k - 1];
      } else {
        assert r[k] == rest[k - 1];
      }
    }
  }

  /** A well-placed candidate left of a valid list can be put in front of it. */
  lemma ConsValid(name: string, m: Match, rest: seq<Match>, L: nat, trim: string)
    requires WellPlaced(name, m, L, trim) && ValidList(name, rest, L, trim)
    requires forall x | x in rest :: m.pos < x.pos
    ensures ValidList(name, [m] + rest, L, trim)
  {
    ConsSorted(m, rest);
    var r := [m] + rest;
    forall j | 0 <= j < |r| ensures WellPlaced(name, r[j], L, trim) {
      if j > 0 {
        assert r[j] == rest[j - 1];
      }
    }
  }

  /**
   The seeding scan of one name from byte `i` (core.go:41-63): trim bytes are
   skipped, a position where a stop word begins is jumped over together with the
   longest such stop word, and every other position becomes a length-1 candidate.
   */
  function SeedName(name: string, stopWords: seq<string>, trim: string, i: nat): seq<Match>
    decreases |name| - i
  {
    if i >= |name| then []
    else if name[i] in trim then SeedName(name, stopWords, trim, i + 1)
    else
      var skip := StopSkip(name, i, stopWords);
      if skip > 0 then SeedName(name, stopWords, trim, i + skip)
      else [Match(i, 1)] + SeedName(name, stopWords, trim, i + 1)
  }

  /** The seeds of a name from `i` lie at positions `>= i` where no stop word begins. */
  lemma {:induction false} SeedNameAbove(name: string, stopWords: seq<string>, trim: string, i: nat)
    ensures forall x | x in SeedName(name, stopWords, trim, i) :: i <= x.pos && StopSkip(name, x.pos, stopWords) == 0
    decreases |name| - i
  {
    if i < |name| {
      var skip := StopSkip(name, i, stopWords);
      if name[i] in trim {
        SeedNameAbove(name, stopWords, trim, i + 1);
      } else if skip > 0 {
        SeedNameAbove(name, stopWords, trim, i + skip);
      } else {
        SeedNameAbove(name, stopWords, trim, i + 1);
      }
    }
  }

  /** The seeds of a name from `i` are sorted, well placed length-1 candidates. */
  lemma {:induction false} SeedNameValid(name: string, stopWords: seq<string>, trim: string, i: nat)
    ensures ValidList(name, SeedName(name, stopWords, trim, i), 1, trim)
    decreases |name| - i
  {
    if i < |name| {
      var skip := StopSkip(name, i, stopWords);
      if name[i] in trim {
        SeedNameValid(name, stopWords, trim, i + 1);
      } else if skip > 0 {
        SeedNameValid(name, stopWords, trim, i + skip);
      } else {
        var rest := SeedName(name, stopWords, trim, i + 1);
        assert SeedName(name, stopWords, trim, i) == [Match(i, 1)] + rest;
        SeedNameValid(name, stopWords, trim, i + 1);
        SeedNameAbove(name, stopWords, trim, i + 1);
        assert WellPlaced(name, Match(i, 1), 1, trim);
        ConsValid(name, Match(i, 1), rest, 1, trim);
      }
    }
  }

  /**
   The seeds of a name from `i` are sorted, well placed length-1 candidates at
   positions `>= i` where no stop word begins.
   */
  lemma SeedNameShape(name: string, stopWords: seq<string>, trim: string, i: nat)
    ensures var ms := SeedName(name, stopWords, trim, i);
            && ValidList(name, ms, 1, trim)
            && (forall x | x in ms :: i <= x.pos && StopSkip(name, x.pos, stopWords) == 0)
  {
    SeedNameValid(name, stopWords, trim, i);
    SeedNameAbove(name, stopWords, trim, i);
  }

  /**
   Where the seeding scan goes from byte `q` (core.go:41-56): to the next byte
   after a trim byte or a byte where no stop word begins, and otherwise past the
   longest stop word that begins at `q`.
   */
  function ScanStep(name: string, stopWords: seq<string>, trim: string, q: nat): (next: nat)
    ensures q < next
  {
    if q < |name| && name[q] !in trim && StopSkip(name, q, stopWords) > 0 then q + StopSkip(name, q, stopWords)
    else q + 1
  }

  /** The scan that starts at byte `i` examines byte `q`. */
  ghost predicate Visits(name: string, stopWords: seq<string>, trim: string, i: nat, q: nat)
    decreases |name| - i
  {
    i < |name| && (q == i || Visits(name, stopWords, trim, ScanStep(name, stopWords, trim, i), q))
  }

  /** The scan only examines bytes of the name, from its start on. */
  lemma {:induction false} VisitsBounds(name: string, stopWords: seq<string>, trim: string, i: nat, q: nat)
    requires Visits(name, stopWords, trim, i, q)
    ensures i <= q < |name|
    decreases |name| - i
  {
    if q != i {
      VisitsBounds(name, stopWords, trim, ScanStep(name, stopWords, trim, i), q);
    }
  }

  /**
   After examining `q` the scan resumes at `ScanStep(q)`: the bytes in between,
   those of a stop word it jumped over, are never examined.
   */
  lemma {:induction false} VisitsNothingBetween(name: string, stopWords: seq<string>, trim: string, i: nat, q: nat, p: nat)
    requires Visits(name, stopWords, trim, i, q)
    requires q < p < ScanStep(name, stopWords, trim, q)
    ensures !Visits(name, stopWords, trim, i, p)
    decreases |name| - i
  {
    var j := ScanStep(name, stopWords, trim, i);
    if q == i {
      if Visits(name, stopWords, trim, j, p) {
        VisitsBounds(name, stopWords, trim, j, p);
      }
    } else {
      VisitsNothingBetween(name, stopWords, trim, j, q, p);
      VisitsBounds(name, stopWords, trim, j, q);
    }
  }

  /**
   The seeds of a name from `i` are exactly the length-1 candidates at the bytes
   the scan examines that are neither trim bytes nor the start of a stop word.
   */
  lemma {:induction false} SeedNameExact(name: string, stopWords: seq<string>, trim: string, i: nat)
    ensures forall m :: m in SeedName(name, stopWords, trim, i) <==>
              && m.len == 1
              && Visits(name, stopWords, trim, i, m.pos)
              && m.pos < |name| && name[m.pos] !in trim
              && StopSkip(name, m.pos, stopWords) == 0
    decreases |name| - i
  {
    var ms := SeedName(name, stopWords, trim, i);
    if i < |name| {
      var j := ScanStep(name, stopWords, trim, i);
      var rest := SeedName(name, stopWords, trim, j);
      SeedNameExact(name, stopWords, trim, j);
      SeedNameShape(name, stopWords, trim, j);
      if name[i] !in trim && StopSkip(name, i, stopWords) == 0 {
        assert ms == [Match(i, 1)] + rest;
      } else {
        assert ms == rest;
      }
      forall m ensures m in ms <==> && m.len == 1 && Visits(name, stopWords, trim, i, m.pos)
                                     && m.pos < |name| && name[m.pos] !in trim && StopSkip(name, m.pos, stopWords) == 0
      {
        if m.pos != i && Visits(name, stopWords, trim, i, m.pos) {
          assert Visits(name, stopWords, trim, j, m.pos);
        }
        if m in rest {
          assert ValidList(name, rest, 1, trim);
          assert i < j <= m.pos;
        }
      }
    }
  }

  /**
   A byte inside a stop word the scan jumped over is never seeded, even where no
   stop word begins at it.
   */
  lemma JumpedUnseeded(name: string, stopWords: seq<string>, trim: string, i: nat, q: nat, p: nat)
    requires Visits(name, stopWords, trim, i, q)
    requires q < |name| && name[q] !in trim && q < p < q + StopSkip(name, q, stopWords)
    ensures Match(p, 1) !in SeedName(name, stopWords, trim, i)
  {
    VisitsNothingBetween(name, stopWords, trim, i, q, p);
    SeedNameExact(name, stopWords, trim, i);
  }

  /**
   The seeds of a name from `i` are sorted, well placed length-1 candidates, and
   they are exactly the bytes the scan examines that are neither trim bytes nor
   the start of a stop word.
   */
  lemma SeedNameSpec(name: string, stopWords: seq<string>, trim: string, i: nat)
    ensures var ms := SeedName(name, stopWords, trim, i);
            && ValidList(name, ms, 1, trim)
            && (forall m :: m in ms <==> && m.len == 1
                                         && Visits(name, stopWords, trim, i, m.pos)
                                         && m.pos < |name| && name[m.pos] !in trim
                                         && StopSkip(name, m.pos, stopWords) == 0)
  {
    SeedNameShape(name, stopWords, trim, i);
    SeedNameExact(name, stopWords, trim, i);
  }

  /** The round-0 candidates: every name seeded from its first byte (core.go:40-64). */
  function Seeds(names: seq<string>, stopWords: seq<string>, trim: string): (cands: seq<seq<Match>>)
    ensures |cands| == |names|
  {
    seq(|names|, ni requires 0 <= ni < |names| => SeedName(names[ni], stopWords, trim, 0))
  }

  lemma SeedsValid(names: seq<string>, stopWords: seq<string>, trim: string)
    ensures Valid(names, Seeds(names, stopWords, trim), 1, trim)
  {
    forall ni | 0 <= ni < |names|
      ensures ValidList(names[ni], Seeds(names, stopWords, trim)[ni], 1, trim)
    {
      SeedNameSpec(names[ni], stopWords, trim, 0);
    }
  }

  /**
   Which byte growth tests for a stop word. `LastByte` is the candidate's current
   last byte, as core.go:100-108 does; `NextByte` is the byte growth would add,
   the correction under "Findings" in the README.
   */
  datatype StopCheck = LastByte | NextByte

  /** How far past the last byte the tested byte lies. */
  function Ahead(check: StopCheck): nat {
    if check == NextByte then 1 else 0
  }

  /**
   One round of growth for one candidate (core.go:100-119): dropped when a stop
   word begins at the byte `check` tests, or when the grown candidate would reach
   the end of the name (`>=`); otherwise one byte longer.
   */
  function Grow(name: string, stopWords: seq<string>, check: StopCheck, m: Match): Option<Match>
    requires 1 <= m.len
  {
    if StopSkip(name, m.pos + m.len - 1 + Ahead(check), stopWords) > 0 then None
    else if m.pos + m.len + 1 >= |name| then None
    else Some(Match(m.pos, m.len + 1))
  }
}
