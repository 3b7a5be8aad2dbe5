/** The cases of util_test.go's table (lines 17-94), derived from the model. */
module RangesExamples {
  import opened Wrappers
  import opened Strings
  import opened Strconv
  import opened Ranges

  lemma CollectOne(r: Result<seq<int>, ParseError>)
    ensures Collect([r]) == r
  {
    assert [r][1..] == [];
    if r.Success? {
      assert r.value + [] == r.value;
    }
  }

  /** An input without a comma is a single token. */
  lemma SingleToken(input: string, max: int)
    requires ',' !in input
    ensures ParseNumberRanges(input, max) == ParseToken(input, max)
  {
    SplitJoin([input], ',');
    assert Split(input, ',') == [input];
    CollectOne(ParseToken(input, max));
  }

  lemma ShowSmall()
    ensures ShowNat(1) == "1" && ShowNat(2) == "2" && ShowNat(3) == "3"
    ensures ShowNat(4) == "4" && ShowNat(5) == "5" && ShowNat(6) == "6"
  {
  }

  lemma SingleNumber(input: string)
    requires input == "3"
    ensures ParseNumberRanges(input, 5) == Success([2])
  {
    var sels := [Number(3)];
    ShowSmall();
    assert ShowAll(sels) == ["3"];
    assert input == Join(["3"], ',');
    assert IndicesAll(sels) == [2];
    ParseNumberRangesRoundTrip(sels, 5);
  }

  lemma SingleRange(input: string)
    requires input == "1-3"
    ensures ParseNumberRanges(input, 5) == Success([0, 1, 2])
  {
    var sels := [Span(1, 3)];
    ShowSmall();
    assert Show(sels[0]) == "1-3";
    assert ShowAll(sels) == ["1-3"];
    assert input == Join(["1-3"], ',');
    assert Interval(1, 3) == [0, 1, 2];
    assert IndicesAll(sels) == [0, 1, 2];
    ParseNumberRangesRoundTrip(sels, 5);
  }

  lemma MultipleRanges(input: string)
    requires input == "1-2,3-5"
    ensures ParseNumberRanges(input, 5) == Success([0, 1, 2, 3, 4])
  {
    var sels := [Span(1, 2), Span(3, 5)];
    ShowSmall();
    assert Show(sels[0]) == "1-2";
    assert Show(sels[1]) == "3-5";
    assert ShowAll(sels) == ["1-2", "3-5"];
    assert input == Join(["1-2", "3-5"], ',');
    assert Interval(1, 2) == [0, 1];
    assert Interval(3, 5) == [2, 3, 4];
    assert IndicesAll(sels) == [0, 1, 2, 3, 4];
    ParseNumberRangesRoundTrip(sels, 5);
  }

  lemma RangeAtMax(input: string)
    requires input == "4-5"
    ensures ParseNumberRanges(input, 5) == Success([3, 4])
  {
    var sels := [Span(4, 5)];
    ShowSmall();
    assert Show(sels[0]) == "4-5";
    assert ShowAll(sels) == ["4-5"];
    assert input == Join(["4-5"], ',');
    assert Interval(4, 5) == [3, 4];
    assert IndicesAll(sels) == [3, 4];
    ParseNumberRangesRoundTrip(sels, 5);
  }

  lemma InvertedRange(input: string)
    requires input == "3-1"
    ensures ParseNumberRanges(input, 5) == Failure(InvalidRange(input))
  {
    assert ',' !in input;
    SingleToken(input, 5);
    ShowSmall();
    assert input == ShowNat(3) + "-" + ShowNat(1);
    ParseSpanToken(3, 1, 5);
  }

  lemma RangeAboveMax(input: string)
    requires input == "4-6"
    ensures ParseNumberRanges(input, 5) == Failure(InvalidRange(input))
    ensures Message(ParseNumberRanges(input, 5).error) == "invalid range: 4-6"
  {
    assert ',' !in input;
    SingleToken(input, 5);
    ShowSmall();
    assert input == ShowNat(4) + "-" + ShowNat(6);
    ParseSpanToken(4, 6, 5);
  }

  lemma NumberAboveMax(input: string)
    requires input == "6"
    ensures ParseNumberRanges(input, 5) == Failure(InvalidNumber(input))
    ensures Message(ParseNumberRanges(input, 5).error) == "invalid number: 6"
  {
    assert ',' !in input;
    SingleToken(input, 5);
    ShowSmall();
    ParseNumberToken(6, 5);
  }

  lemma NotANumber(input: string)
    requires input == "a"
    ensures ParseNumberRanges(input, 5) == Failure(InvalidNumber(input))
  {
    assert ',' !in input;
    SingleToken(input, 5);
    TrimKeepsClean(input, AsciiSpace);
    assert Atoi(input) == None;
  }

  lemma RangeNotANumber(input: string)
    requires input == "1-a"
    ensures ParseNumberRanges(input, 5) == Failure(InvalidRange(input))
  {
    assert ',' !in input;
    SingleToken(input, 5);
    TrimKeepsClean(input, AsciiSpace);
    assert input == Join(["1", "a"], '-');
    SplitJoin(["1", "a"], '-');
    assert Atoi("a") == None;
  }

  lemma EmptyInput(input: string)
    requires input == ""
    ensures ParseNumberRanges(input, 5) == Failure(InvalidNumber(input))
  {
    SingleToken(input, 5);
  }

  lemma MixedSelections(input: string)
    requires input == "1-2,4,5"
    ensures ParseNumberRanges(input, 5) == Success([0, 1, 3, 4])
  {
    var sels := [Span(1, 2), Number(4), Number(5)];
    ShowSmall();
    assert Show(sels[0]) == "1-2";
    assert ShowAll(sels) == ["1-2", "4", "5"];
    assert input == Join(["1-2", "4", "5"], ',');
    assert Interval(1, 2) == [0, 1];
    assert IndicesAll(sels) == [0, 1, 3, 4];
    ParseNumberRangesRoundTrip(sels, 5);
  }

  lemma OverlapsKept(input: string)
    requires input == "1-3,2-4"
    ensures ParseNumberRanges(input, 5) == Success([0, 1, 2, 1, 2, 3])
  {
    var sels := [Span(1, 3), Span(2, 4)];
    ShowSmall();
    assert Show(sels[0]) == "1-3";
    assert Show(sels[1]) == "2-4";
    assert ShowAll(sels) == ["1-3", "2-4"];
    assert input == Join(["1-3", "2-4"], ',');
    assert Interval(1, 3) == [0, 1, 2];
    assert Interval(2, 4) == [1, 2, 3];
    assert IndicesAll(sels) == [0, 1, 2, 1, 2, 3];
    ParseNumberRangesRoundTrip(sels, 5);
  }

  lemma SpacesIgnored(input: string)
    requires input == " 1-2 , 4 , 5 "
    ensures ParseNumberRanges(input, 5) == Success([0, 1, 3, 4])
  {
    var raw := [" 1-2 ", " 4 ", " 5 "];
    assert input == Join(raw, ',');
    SplitJoin(raw, ',');
    SpacedTokens(raw);
    CollectThree();
  }

  lemma SpacedTokens(raw: seq<string>)
    requires raw == [" 1-2 ", " 4 ", " 5 "]
    ensures TokenResults(raw, 5) == [Success([0, 1]), Success([3]), Success([4])]
  {
    ShowSmall();
    assert raw[1] == [' '] + ShowNat(4) + [' '];
    assert raw[2] == [' '] + ShowNat(5) + [' '];
    SpacedRange(raw[0]);
    SpacedNumber(raw[1], 4);
    SpacedNumber(raw[2], 5);
  }

  lemma SpacedRange(raw: string)
    requires raw == " 1-2 "
    ensures ParseToken(raw, 5) == Success([0, 1])
  {
    ShowSmall();
    TrimmedToken(raw, ShowNat(1) + "-" + ShowNat(2));
    ParseSpanToken(1, 2, 5);
    assert Interval(1, 2) == [0, 1];
  }

  lemma SpacedNumber(raw: string, n: nat)
    requires 1 <= n <= 5 && raw == [' '] + ShowNat(n) + [' ']
    ensures ParseToken(raw, 5) == Success([n - 1])
  {
    TrimmedToken(raw, ShowNat(n));
    ParseNumberToken(n, 5);
  }

  lemma CollectThree()
    ensures Collect([Success([0, 1]), Success([3]), Success([4])]) == Success([0, 1, 3, 4])
  {
    var a, b, c: Result<seq<int>, ParseError> := Success([0, 1]), Success([3]), Success([4]);
    CollectOne(a);
    CollectOne(b);
    CollectOne(c);
    CollectAppend([b], [c]);
    assert [b] + [c] == [b, c];
    CollectAppend([a], [b, c]);
    assert [a] + [b, c] == [a, b, c];
    assert [0, 1] + ([3] + [4]) == [0, 1, 3, 4];
  }

  lemma TrimmedToken(raw: string, t: string)
    requires |raw| > 2 && raw[0] == ' ' && raw[|raw| - 1] == ' ' && t == raw[1..|raw| - 1]
    requires |t| > 0 && t[0] !in AsciiSpace && t[|t| - 1] !in AsciiSpace
    ensures forall max :: ParseToken(raw, max) == ParseToken(t, max)
  {
    assert TrimLeft(raw, AsciiSpace) == raw[1..];
    assert raw[1..][..|raw[1..]| - 1] == t;
    assert TrimRight(raw[1..], AsciiSpace) == t;
    forall max {
      ParseTokenTrimmed(raw, max);
    }
  }
}
