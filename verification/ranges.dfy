/**
 The selection parser of mvcommon's interactive mode (`ParseNumberRanges`): a
 comma-separated list of 1-based numbers `n` and inclusive ranges `a-b` becomes the
 list of 0-based indices they denote, in input order; the first bad token aborts
 the whole parse with an error naming that token.
 */
module Ranges {
  import opened Wrappers
  import opened Strings
  import opened Strconv

  /** The two error texts of the parser; `token` is the offending token after trimming. */
  datatype ParseError = InvalidRange(token: string) | InvalidNumber(token: string)

  /** The message Go's `fmt.Errorf` builds for each error. */
  function Message(e: ParseError): string
  {
    match e
    case InvalidRange(t) => "invalid range: " + t
    case InvalidNumber(t) => "invalid number: " + t
  }

  /** The 0-based indices `a-1, a, ..., b-1` of the 1-based inclusive range `a..b`, ascending. */
  function Interval(a: int, b: int): (r: seq<int>)
    ensures |r| == if a <= b then b - a + 1 else 0
    ensures forall i | 0 <= i < |r| :: r[i] == a - 1 + i
    decreases b - a
  {
    if a > b then [] else [a - 1] + Interval(a + 1, b)
  }

  /**
   One comma-separated token, after trimming white space. A token holding `-` must
   be `a-b` with both sides numbers and `1 <= a <= b <= max`; any other token must
   be a number in `1..max`.
   */
  function ParseToken(raw: string, max: int): Result<seq<int>, ParseError>
  {
    var t := TrimSpace(raw);
    if '-' in t then
      var parts := Split(t, '-');
      if |parts| != 2 then Failure(InvalidRange(t))
      else
        var start, end := Atoi(parts[0]), Atoi(parts[1]);
        if start.None? || end.None? || start.value < 1 || end.value > max || start.value > end.value then
          Failure(InvalidRange(t))
        else
          Success(Interval(start.value, end.value))
    else
      var num := Atoi(t);
      if num.None? || num.value < 1 || num.value > max then Failure(InvalidNumber(t))
      else Success([num.value - 1])
  }

  /** `t` is the range `x-y`: two pieces without a `-`, joined by one. */
  predicate SpanOf(t: string, x: string, y: string) {
    t == x + "-" + y && '-' !in x && '-' !in y
  }

  /**
   A trimmed token without `-` succeeds exactly when `Atoi` reads a number in
   `1..max` from it, and then gives that number's index; any other such token,
   the empty one included, is an invalid number (util.go:27-32).
   */
  lemma ParseNumberExact(raw: string, max: int)
    ensures var t := TrimSpace(raw);
            var r := ParseToken(raw, max);
            '-' !in t ==>
              && (r.Success? <==> Atoi(t).Some? && 1 <= Atoi(t).value <= max)
              && (r.Success? ==> r.value == [Atoi(t).value - 1])
              && (r.Failure? ==> r.error == InvalidNumber(t))
  {
  }

  /**
   A trimmed token with a `-` succeeds exactly when it is `x-y` for two numbers
   with `1 <= x <= y <= max`, and then gives the indices of that range; a token
   with more than one `-`, or with a side `Atoi` rejects, or out of bounds, is an
   invalid range (util.go:14-26).
   */
  lemma ParseRangeExact(raw: string, max: int)
    ensures var t := TrimSpace(raw);
            var r := ParseToken(raw, max);
            '-' in t ==>
              && (r.Success? <==> exists x, y :: && SpanOf(t, x, y)
                                                 && Atoi(x).Some? && Atoi(y).Some?
                                                 && 1 <= Atoi(x).value <= Atoi(y).value <= max)
              && (forall x, y | SpanOf(t, x, y) && r.Success? ::
                    Atoi(x).Some? && Atoi(y).Some? && r.value == Interval(Atoi(x).value, Atoi(y).value))
              && (r.Failure? ==> r.error == InvalidRange(t))
  {
    var t := TrimSpace(raw);
    if '-' in t {
      var parts := Split(t, '-');
      JoinSplit(t, '-');
      forall x, y | SpanOf(t, x, y) ensures parts == [x, y] {
        assert Join([x, y], '-') == t;
        SplitJoin([x, y], '-');
      }
      if |parts| == 2 {
        assert Join(parts, '-') == parts[0] + "-" + parts[1];
        assert SpanOf(t, parts[0], parts[1]);
      }
    }
  }

  /**
   A successful token is a non-empty ascending run of consecutive indices inside
   `[0, max)`; a failure names the trimmed token, as a range error exactly when
   that token holds a `-`. Which tokens succeed, and with what, is stated by
   `ParseNumberExact` and `ParseRangeExact`, whose facts this lemma repeats.
   */
  lemma ParseTokenSpec(raw: string, max: int)
    ensures var r := ParseToken(raw, max);
            && (r.Success? ==> exists a, b :: 1 <= a <= b <= max && r.value == Interval(a, b))
            && (r.Failure? ==> r.error.token == TrimSpace(raw))
            && (r.Failure? ==> (r.error.InvalidRange? <==> '-' in TrimSpace(raw)))
    ensures var t := TrimSpace(raw);
            var r := ParseToken(raw, max);
            && ('-' !in t ==> (r.Success? <==> Atoi(t).Some? && 1 <= Atoi(t).value <= max))
            && ('-' !in t && r.Success? ==> r.value == [Atoi(t).value - 1])
            && ('-' in t ==> (r.Success? <==> exists x, y :: && SpanOf(t, x, y)
                                                             && Atoi(x).Some? && Atoi(y).Some?
                                                             && 1 <= Atoi(x).value <= Atoi(y).value <= max))
  {
    var r := ParseToken(raw, max);
    var t := TrimSpace(raw);
    ParseNumberExact(raw, max);
    ParseRangeExact(raw, max);
    if r.Success? && '-' !in t {
      var n := Atoi(t).value;
      assert r.value == Interval(n, n);
    }
  }

  /** Only the trimmed token matters. */
  lemma ParseTokenTrimmed(raw: string, max: int)
    ensures ParseToken(raw, max) == ParseToken(TrimSpace(raw), max)
  {
    TrimIdempotent(raw, AsciiSpace);
  }

  /** The per-token results, in input order. */
  function TokenResults(tokens: seq<string>, max: int): (rs: seq<Result<seq<int>, ParseError>>)
    ensures |rs| == |tokens|
    ensures forall i | 0 <= i < |tokens| :: rs[i] == ParseToken(tokens[i], max)
  {
    if |tokens| == 0 then [] else [ParseToken(tokens[0], max)] + TokenResults(tokens[1..], max)
  }

  /**
   Go's loop over the tokens: the first failure is returned as it is, otherwise the
   successes are concatenated in order.
   */
  function Collect(rs: seq<Result<seq<int>, ParseError>>): Result<seq<int>, ParseError>
  {
    if |rs| == 0 then Success([])
    else if rs[0].Failure? then Failure(rs[0].error)
    else
      var tail := Collect(rs[1..]);
      if tail.Failure? then tail else Success(rs[0].value + tail.value)
  }

  /** A success of `Collect` means every result succeeded, and each index it returns comes from one of them. */
  lemma {:induction false} CollectFrom(rs: seq<Result<seq<int>, ParseError>>)
    requires Collect(rs).Success?
    ensures forall i | 0 <= i < |rs| :: rs[i].Success?
    ensures forall x | x in Collect(rs).value :: exists i | 0 <= i < |rs| :: x in rs[i].value
    ensures |rs| > 0 && |rs[0].value| > 0 ==> |Collect(rs).value| > 0
    decreases |rs|
  {
    if |rs| > 0 {
      CollectFrom(rs[1..]);
      forall x | x in Collect(rs).value
        ensures exists i | 0 <= i < |rs| :: x in rs[i].value
      {
        if x !in rs[0].value {
          assert x in Collect(rs[1..]).value;
          var i :| 0 <= i < |rs[1..]| && x in rs[1..][i].value;
          assert x in rs[i + 1].value;
        }
      }
    }
  }

  /** `Collect` fails exactly when some result is a failure, and then with the first failure's error. */
  lemma {:induction false} CollectFailFast(rs: seq<Result<seq<int>, ParseError>>)
    ensures Collect(rs).Failure? <==> exists i | 0 <= i < |rs| :: rs[i].Failure?
    ensures Collect(rs).Failure? ==>
              exists i | 0 <= i < |rs| ::
                && rs[i] == Failure(Collect(rs).error)
                && forall j | 0 <= j < i :: rs[j].Success?
    decreases |rs|
  {
    if |rs| > 0 {
      CollectFailFast(rs[1..]);
      if rs[0].Success? {
        if Collect(rs).Failure? {
          var i :| 0 <= i < |rs[1..]|
                   && rs[1..][i] == Failure(Collect(rs[1..]).error)
                   && forall j | 0 <= j < i :: rs[1..][j].Success?;
          assert rs[i + 1] == Failure(Collect(rs).error);
          assert forall j | 0 <= j < i + 1 :: rs[j].Success? by {
            forall j | 0 <= j < i + 1
              ensures rs[j].Success?
            {
              if j > 0 {
                assert rs[j] == rs[1..][j - 1];
              }
            }
          }
        } else {
          forall i | 0 <= i < |rs|
            ensures rs[i].Success?
          {
            if i > 0 {
              assert rs[i] == rs[1..][i - 1];
            }
          }
        }
      }
    }
  }

  /** `Collect` distributes over concatenation: outputs are concatenated in order, overlaps kept. */
  lemma {:induction false} CollectAppend(a: seq<Result<seq<int>, ParseError>>, b: seq<Result<seq<int>, ParseError>>)
    requires Collect(a).Success? && Collect(b).Success?
    ensures Collect(a + b) == Success(Collect(a).value + Collect(b).value)
    decreases |a|
  {
    if |a| > 0 {
      assert (a + b)[0] == a[0];
      assert (a + b)[1..] == a[1..] + b;
      CollectAppend(a[1..], b);
      var t, u := Collect(a[1..]).value, Collect(b).value;
      assert Collect(a[1..] + b) == Success(t + u);
      assert Collect(a + b) == Success(a[0].value + (t + u));
      assert a[0].value + (t + u) == (a[0].value + t) + u;
    } else {
      assert a + b == b;
      var v := Collect(b).value;
      assert [] + v == v;
    }
  }

  /** Every successful token yields only indices in `[0, max)`, and at least one. */
  lemma TokenResultsInRange(tokens: seq<string>, max: int)
    ensures forall i | 0 <= i < |tokens| ::
              var r := TokenResults(tokens, max)[i];
              r.Success? ==> |r.value| > 0 && forall x | x in r.value :: 0 <= x < max
  {
    forall i | 0 <= i < |tokens|
      ensures var r := TokenResults(tokens, max)[i];
              r.Success? ==> |r.value| > 0 && forall x | x in r.value :: 0 <= x < max
    {
      ParseTokenSpec(tokens[i], max);
    }
  }

  /**
   `ParseNumberRanges(input, max)`: the comma-separated tokens parsed in order with
   the first failure aborting. Every returned index lies in `[0, max)` and a success
   is never empty (an empty input is the invalid number `""`).
   */
  function ParseNumberRanges(input: string, max: int): (r: Result<seq<int>, ParseError>)
    ensures r.Success? ==> |r.value| > 0
    ensures r.Success? ==> forall x | x in r.value :: 0 <= x < max
  {
    var rs := TokenResults(Split(input, ','), max);
    var r := Collect(rs);
    if r.Success? then
      CollectFrom(rs);
      TokenResultsInRange(Split(input, ','), max);
      r
    else
      r
  }

  /** The parse fails exactly when some token fails, and then with the first failing token's error. */
  lemma ParseNumberRangesFailFast(input: string, max: int)
    ensures var tokens := Split(input, ',');
            var r := ParseNumberRanges(input, max);
            && (r.Failure? <==> exists i | 0 <= i < |tokens| :: ParseToken(tokens[i], max).Failure?)
            && (r.Failure? ==>
                  exists i | 0 <= i < |tokens| ::
                    && ParseToken(tokens[i], max) == Failure(r.error)
                    && forall j | 0 <= j < i :: ParseToken(tokens[j], max).Success?)
  {
    CollectFailFast(TokenResults(Split(input, ','), max));
  }

  /** A selection as a user would type it: a number `n` or a range `a-b`, 1-based. */
  datatype Selection = Number(n: nat) | Span(start: nat, end: nat)

  predicate ValidSelection(sel: Selection, max: int)
  {
    match sel
    case Number(n) => 1 <= n <= max
    case Span(a, b) => 1 <= a <= b <= max
  }

  /** The text of a selection, as typed. */
  function Show(sel: Selection): string
  {
    match sel
    case Number(n) => ShowNat(n)
    case Span(a, b) => ShowNat(a) + "-" + ShowNat(b)
  }

  /** The 0-based indices a selection denotes. */
  function Indices(sel: Selection): seq<int>
  {
    match sel
    case Number(n) => [n - 1]
    case Span(a, b) => Interval(a, b)
  }

  function ShowAll(sels: seq<Selection>): (ts: seq<string>)
    ensures |ts| == |sels|
    ensures forall i | 0 <= i < |sels| :: ts[i] == Show(sels[i])
  {
    if |sels| == 0 then [] else [Show(sels[0])] + ShowAll(sels[1..])
  }

  function IndicesAll(sels: seq<Selection>): seq<int>
  {
    if |sels| == 0 then [] else Indices(sels[0]) + IndicesAll(sels[1..])
  }

  /** A digit string holds no byte that is not a digit. */
  lemma DigitsExclude(s: string, c: char)
    requires AllDigits(s) && !IsDigit(c)
    ensures c !in s
  {
  }

  lemma DigitsHaveNoSpace(s: string)
    requires |s| > 0 && AllDigits(s)
    ensures TrimSpace(s) == s
  {
    assert s[0] !in AsciiSpace && s[|s| - 1] !in AsciiSpace;
    TrimKeepsClean(s, AsciiSpace);
  }

  /** A rendered number parses to its index exactly when it lies in `1..max`, and is otherwise an invalid number. */
  lemma ParseNumberToken(n: nat, max: int)
    ensures ParseToken(ShowNat(n), max)
            == if 1 <= n <= max then Success([n - 1]) else Failure(InvalidNumber(ShowNat(n)))
  {
    var t := ShowNat(n);
    DigitsHaveNoSpace(t);
    AtoiShowNat(n);
    DigitsExclude(t, '-');
  }

  /** A rendered range `a-b` parses to its indices exactly when `1 <= a <= b <= max`, and is otherwise an invalid range. */
  lemma ParseSpanToken(a: nat, b: nat, max: int)
    ensures ParseToken(ShowNat(a) + "-" + ShowNat(b), max)
            == if 1 <= a <= b <= max then Success(Interval(a, b))
               else Failure(InvalidRange(ShowNat(a) + "-" + ShowNat(b)))
  {
    var sa, sb := ShowNat(a), ShowNat(b);
    var t := sa + "-" + sb;
    assert t[0] == sa[0] && t[|t| - 1] == sb[|sb| - 1];
    assert t[0] !in AsciiSpace && t[|t| - 1] !in AsciiSpace;
    TrimKeepsClean(t, AsciiSpace);
    assert TrimSpace(t) == t;
    assert t[|sa|] == '-';
    DigitsExclude(sa, '-');
    DigitsExclude(sb, '-');
    assert Join([sa, sb], '-') == t;
    SplitJoin([sa, sb], '-');
    assert Split(t, '-') == [sa, sb];
    AtoiShowNat(a);
    AtoiShowNat(b);
  }

  /** The typed form of a valid selection parses back to the indices it denotes. */
  lemma ParseShow(sel: Selection, max: int)
    requires ValidSelection(sel, max)
    ensures ParseToken(Show(sel), max) == Success(Indices(sel))
  {
    match sel
    case Number(n) => ParseNumberToken(n, max);
    case Span(a, b) => ParseSpanToken(a, b, max);
  }

  /** No typed selection contains a comma. */
  lemma ShowHasNoComma(sel: Selection)
    ensures ',' !in Show(sel)
  {
    match sel
    case Number(n) =>
      DigitsExclude(ShowNat(n), ',');
    case Span(a, b) =>
      DigitsExclude(ShowNat(a), ',');
      DigitsExclude(ShowNat(b), ',');
  }

  lemma {:induction false} ParseAllShown(sels: seq<Selection>, max: int)
    requires forall i | 0 <= i < |sels| :: ValidSelection(sels[i], max)
    ensures Collect(TokenResults(ShowAll(sels), max)) == Success(IndicesAll(sels))
    decreases |sels|
  {
    if |sels| > 0 {
      ParseShow(sels[0], max);
      ParseAllShown(sels[1..], max);
      assert ShowAll(sels)[1..] == ShowAll(sels[1..]);
      assert TokenResults(ShowAll(sels), max)[1..] == TokenResults(ShowAll(sels[1..]), max);
    }
  }

  /** Rendering valid selections with commas and parsing the text gives back all their indices, in order. */
  lemma {:induction false} ParseNumberRangesRoundTrip(sels: seq<Selection>, max: int)
    requires |sels| > 0
    requires forall i | 0 <= i < |sels| :: ValidSelection(sels[i], max)
    ensures ParseNumberRanges(Join(ShowAll(sels), ','), max) == Success(IndicesAll(sels))
  {
    var ts := ShowAll(sels);
    forall i | 0 <= i < |ts|
      ensures ',' !in ts[i]
    {
      ShowHasNoComma(sels[i]);
    }
    SplitJoin(ts, ',');
    ParseAllShown(sels, max);
  }
}
