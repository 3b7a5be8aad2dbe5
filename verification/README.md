# mvcommon: common-prefix search and selection parsing, in Dafny

mvcommon groups files by the part of their names they share. It has two core
routines, and this project models both and proves properties about them:

- **`CommonPrefixSplit(names, stopWords, trim, minMatch)`** (core.go) finds
  the substring that all the names share.
  - Every byte of every name that is not a trim byte seeds a length-1
    candidate. A stop word that starts at a byte skips over it.
  - Candidates are grouped by the text they spell and grown one byte per round.
  - A group qualifies when it occurs in every name, is at least `minMatch`
    bytes long, and does not end with a trim byte.
  - Of all qualifying groups, the one with the lowest average first position
    wins. The result is that group's text taken from the first name, with trim
    bytes removed from both ends.
- **`ParseNumberRanges(input, max)`** (util.go) turns a selection such as
  `1-3,5` into 0-based indices. The rules:
  - Tokens are separated by commas and white space around them is ignored.
  - A token holding `-` must be a range `a-b` with `1 <= a <= b <= max`.
  - Any other token must be a number in `1..max`.
  - The first bad token aborts the parse with `invalid range: <token>` or
    `invalid number: <token>`.

## Modules

- `Wrappers` holds `Option` and `Result`.
- `Strings` holds byte-wise `strings.Trim`, ASCII `strings.TrimSpace`, and
  `strings.Split`/`Join` on one separator byte.
- `Strconv` holds `strconv.Atoi` over unbounded integers.
- `Ranges` holds the selection parser. `RangesExamples` holds the cases of
  util_test.go, each derived from the model.
- `Candidates` holds candidates, stop-word detection, seeding and growth.
- `Groups` holds the table that maps text to per-name candidate lists
  (`map[string]map[int][]Match` in the source).
- `Rounds` holds the sequence of tables the search visits and what
  "qualifies" and "score" mean.
- `Search` holds the search itself: a method whose inner loop draws the keys
  of each table in an arbitrary order, as Go's map iteration does.
  `SplitWith` takes the byte growth tests for a stop word as a parameter
  (`Candidates.StopCheck`). `CommonPrefixSplit` is the code as written
  (`LastByte`). `CommonPrefixSplitClean` is the corrected search of
  "Findings" (`NextByte`).
- `Boundaries` holds what stop words guarantee about every candidate of every
  round, and so about the result.
- `SearchExamples` and `StopExamples` hold small concrete instances of the
  search.

### Behaviour kept exactly as written

Stop-word detection (core.go:49 and 102) uses `len(name) > i+len(stopWord)`.
A stop word that ends exactly at the end of a name is therefore not
recognised (`SearchExamples.StopWordAtEnd`).

A grown candidate is dropped when `pos+len >= len(name)` (core.go:110), so no
candidate ever reaches the last byte of its name. For two copies of `"ab"` the
search returns `"a"`, not `"ab"` (`SearchExamples.ExactNames`).

Seeding jumps over a stop word (core.go:53-55). The bytes inside it are
never examined, so they are not seeded even when no stop word begins there
(`Candidates.JumpedUnseeded`).

A later group replaces the best one on a tie (`>=` at core.go:89). The score
is `(sum*100)/len(names)` in integer division.

Go iterates over maps in a random order, so the key that ends up best in a
round with tied scores depends on that order. The model does not pick one.
`Rounds.Winner` characterises every admissible answer:
- it qualifies;
- it scores no worse than any qualifying group;
- it scores strictly better than every qualifying group of a later round.

`Rounds.WinnerRoundUnique` shows that the round and the score are determined,
even though the key is not.

In Go, the table of the next round is built while the current one is
scanned. The model instead regroups each name's surviving candidates (the
same table: each longer key extends exactly one current key). Bytes are
modelled as `char`.

## Model

| member | source | states |
|---|---|---|
| Search.CommonPrefixSplit | core.go:14-137 | The result is empty exactly when no group of any round qualifies, and always for no names. Otherwise it is the key of a winning group, so it occurs in every name, is at least `minMatch` bytes long, and neither starts nor ends with a trim byte. At the occurrence in the first name it is sliced from, no stop word begins at any of its bytes except possibly the last. Other occurrences of the same text are not constrained. |
| Search.SplitWith | core.go:14-137 | The same guarantees for either stop-word test. The stop-free part covers the bytes growth tested: all but the last under `LastByte`, all of them under `NextByte`. |
| Search.ResultStopFree | core.go:100-108 | The candidate the answer is sliced from has the round's length and spells the answer. No stop word begins at its bytes that growth tested. |
| Search.CommonPrefixSplitClean | core.go:14-137 | The corrected search has the winner guarantees of the search as written. In addition, at the occurrence in the first name it is sliced from, no stop word begins at any byte of the result. Other occurrences of the same text are not constrained. |
| Search.SearchRounds | core.go:66-128 | The round loop ends after the last non-empty table. With no best, nothing qualified. With a best, it is the summary of a winner under every key order. |
| Search.ScoreRound | core.go:68-95 | Scanning one round's groups in any order keeps the best-so-far invariant over the keys seen. The best score never increases. |
| Search.Visit | core.go:69-95 | Visiting one group: an incomplete or unqualified group leaves the best alone. A qualifying group becomes the best exactly when its score is at most the current best's. |
| Search.VisitReplace | core.go:88-94 | A qualifying group that ties or beats the best becomes the best, and the invariant still holds with it. |
| Search.AllRoundsSeen | core.go:130-132 | After every round, no best means no group of any round qualified. A best is a winner: no qualifying group scores lower, and every one in a later round scores higher. |
| Search.HeadSlice | core.go:78-87 | The summary holds one first candidate per name. The one for the first name lies inside it, spells the group's key, and starts with a byte outside the trim set. |
| Search.BestResult | core.go:133-136 | Slicing the first name at the best summary's first candidate and trimming gives back the group's key unchanged. |
| Search.RoundResult | core.go:130-136 | For the winning group of round `k`, the returned text is its key, of length `k+1`. |
| Candidates.StopSkipSpec | core.go:47-52 | The skip is the length of the longest stop word that starts at the byte and ends before the end of the name. It is 0 when none does, and the skipped stretch stays inside the name. |
| Candidates.SeedNameSpec | core.go:41-63 | The seeds of a name are sorted, distinct length-1 candidates. A byte is seeded exactly when the scan examines it, it is not a trim byte, and no stop word begins at it. |
| Candidates.SeedNameExact | core.go:41-63 | A length-1 candidate is a seed exactly when the scan (`Visits`: one byte at a time, or past the longest stop word) examines its byte, that byte is not a trim byte, and no stop word begins there. |
| Candidates.VisitsNothingBetween | core.go:53-55 | Bytes between an examined byte and where the scan resumes are never examined. |
| Candidates.JumpedUnseeded | core.go:53-55 | A byte inside a stop word the scan jumped over is never seeded, whatever begins at it. |
| Candidates.SeedsValid | core.go:40-64 | Seeding gives every name a well-formed candidate list of length 1. |
| Groups.InsertLookup | core.go:57-62 | Recording a candidate appends it to exactly one name's list under exactly one key. Every other list is unchanged. |
| Groups.InsertTidy | core.go:57-62 | Recording a candidate adds its key and never leaves an empty list behind. |
| Groups.FilterMembers | core.go:57-62 | The candidates a name contributes to a key are exactly its candidates that spell that key. |
| Groups.FilterLeftmost | core.go:80-81 | The first candidate of a name under a key is the leftmost of its candidates spelling that key. A byte that was never seeded, such as the start of a stop word, is not a candidate. |
| Groups.GroupSpec | core.go:113-119 | Each name's list under each key in the grouped table is that name's candidates spelling the key, in order. |
| Groups.CountComplete | core.go:69 | A group holds as many name indices as there are names exactly when it occurs in every name. |
| Groups.GroupOK | core.go:113-119 | Every entry of a grouped table is a non-empty, sorted list of candidates of the round's length that spell its key. |
| Rounds.SurvivorsMembers | core.go:96-120 | A candidate survives a round, one byte longer, exactly when its group occurs in every name, no stop word starts at the byte tested (its last byte as written), and the grown candidate ends before the last byte of the name. |
| Boundaries.SeedsStopFree | core.go:47-56 | No stop word begins at a seed's byte. |
| Boundaries.SurvivorsStopFree | core.go:100-108 | Growth keeps candidates stop free: the byte it tested lies inside the grown candidate, before the new last byte under `LastByte`. |
| Boundaries.GroupStopFree | core.go:113-119 | Grouping stop-free candidates gives a table all of whose candidates are stop free. |
| Boundaries.RoundStopFree | core.go:66-128 | Every candidate of every round is stop free in its name. |
| Rounds.SurvivorsSorted | core.go:96-120 | Survivors stay in increasing position order. |
| Rounds.SurvivorsValid | core.go:109-112 | Survivors have the next round's length and end strictly before the end of their name. |
| Rounds.NextValid | core.go:96-120 | Growing every name's candidates keeps all candidate lists well formed, one byte longer. |
| Rounds.RoundsFromNonEmpty | core.go:124-127 | The search continues exactly while the next table is non-empty. |
| Rounds.RoundsCount | core.go:66-128 | The search runs at most as many rounds as the longest name has bytes. |
| Rounds.RoundOK | core.go:66-128 | The table of round `k` is non-empty, and its keys are `k+1` bytes long. |
| Rounds.FirstMatchesSpec | core.go:78-87 | A summary has one candidate per name, each the first of that name's list. |
| Rounds.WinnerRoundUnique | core.go:89 | Any two admissible winners come from the same round and have the same score. |
| Rounds.QualifiedShape | core.go:69-76 | A qualifying key of round `k` has `k+1` bytes and at least `minMatch` of them. Neither of its ends is a trim byte, and it occurs in every name. |
| Rounds.QualifierShape | core.go:69-76 | A qualifying key of a well-formed table has the round's length and at least `minMatch` bytes. It neither starts nor ends with a trim byte and occurs in every name. |
| SearchExamples.ExactNames | core.go:109-112 | For two copies of "ab" the search returns "a": the end-of-name drop prevents "ab" from forming. |
| SearchExamples.NoNames | core_test.go:82-88 | No names give the empty string. |
| SearchExamples.WinnerAB | core.go:66-128 | For two copies of "ab", the only round's winner is "a". |
| SearchExamples.SeedsWithStopWord | core_test.go:66-71 | In "data_final.csv", the trim byte `_` and the stop word "final" are skipped, and seeding resumes at byte 10. |
| SearchExamples.StopWordAtEnd | core.go:49 | A stop word ending at the last byte of the name is not recognised, so its first byte is seeded. |
| StopExamples.SeedsBracket | core.go:41-63 | In "a[b" with stop word "[", the seeds are "a" at 0 and "b" at 2. |
| StopExamples.GrowBracket | core.go:100-112 | As written, "a" grows into "a[" because only its last byte is tested, and "b" is dropped at the end of the name. |
| StopExamples.GrowBracketClean | core.go:100-112 | Testing the byte growth would add, "a" is stopped by the "[" that follows it. |
| StopExamples.WinnerBracket | core.go:66-128 | As written, "a[" of the second round is the only winner. It ties the earlier "a" at 0, and a later tie wins. |
| StopExamples.WinnerBracketClean | core.go:66-128 | With the corrected test there is one round, and "a" is the only winner. |
| StopExamples.StopWordKept | core.go:100-108 | The search as written over two copies of "a[b" with stop word "[" returns "a[". A stop word begins at the result's last byte. |
| StopExamples.StopWordLeft | core.go:100-108 | The corrected search over the same names returns "a", and no stop word begins at any of its bytes. |
| Strings.TrimSpec | core.go:136 | `Trim` removes only cutset bytes, from both ends. What remains is a contiguous part of the input whose ends are not in the cutset. |
| Strings.TrimKeepsClean | core.go:133-136 | A non-empty string whose ends are not in the cutset is left unchanged by trimming. |
| Strings.TrimIdempotent | core.go:136 | Trimming twice is the same as trimming once. |
| Strings.JoinSplit | util.go:11 | No part of a split contains the separator, and joining the parts gives back the input. |
| Strings.SplitJoin | util.go:15 | Splitting the join of separator-free parts gives back the parts. |
| Strconv.Atoi | util.go:19-20 | Parsing succeeds exactly for decimal digits with an optional leading `+` or `-` and at least one digit. The value is the digits' decimal value, negated after `-`. |
| Strconv.AtoiShowNat | util.go:28 | The decimal text of a natural number, with or without a leading `+`, parses back to it. |
| Ranges.Interval | util.go:24-26 | The range `a-b` contributes `b-a+1` indices, `a-1` up to `b-1` in ascending order. |
| Ranges.ParseTokenSpec | util.go:13-32 | A token parses to a run of indices inside `[0,max)` given by some `1 <= a <= b <= max`. An error names the trimmed token, and it is a range error exactly when the token holds `-`. A token without `-` succeeds exactly when it parses as a number in `1..max`, giving that number minus one. A token with `-` succeeds exactly when it is two dash-free numbers `a-b` with `1 <= a <= b <= max`. |
| Ranges.ParseNumberExact | util.go:27-32 | A token without `-` succeeds exactly when `Atoi` gives a value `n` in `1..max`. It then gives `[n-1]`, and otherwise `invalid number`. |
| Ranges.ParseRangeExact | util.go:14-26 | A token with `-` succeeds exactly when it splits into two dash-free parts that both parse, with `1 <= a <= b <= max`. It then gives `Interval(a, b)`, and otherwise `invalid range`. |
| Ranges.ParseTokenTrimmed | util.go:13 | White space around a token does not change its result. |
| Ranges.ParseNumberToken | util.go:27-32 | A number token `n` gives `[n-1]` when `1 <= n <= max`, and `invalid number: n` otherwise. |
| Ranges.ParseSpanToken | util.go:14-26 | A range token `a-b` gives `a-1..b-1` when `1 <= a <= b <= max`, and `invalid range: a-b` otherwise. |
| Ranges.CollectFrom | util.go:12-35 | A successful parse means every token succeeded. Every index comes from some token, and a first token with indices makes the result non-empty. |
| Ranges.CollectFailFast | util.go:12-35 | Collecting fails exactly when some token fails. The error is that of the first failing token. |
| Ranges.CollectAppend | util.go:25-32 | The indices of consecutive tokens are concatenated in order, and overlaps are kept. |
| Ranges.TokenResultsInRange | util.go:21-29 | Each successful token contributes at least one index, all inside `[0,max)`. |
| Ranges.ParseNumberRanges | util.go:9-36 | A successful parse gives a non-empty list whose every index lies in `[0,max)`. |
| Ranges.ParseNumberRangesFailFast | util.go:12-35 | The parse fails exactly when some comma-separated token is bad, and then reports the first bad token's error. |
| Ranges.ParseShow | util.go:13-32 | The text of a valid selection parses back to its indices. |
| Ranges.ParseAllShown | util.go:12-35 | The texts of valid selections, parsed one by one and collected, give the concatenation of their indices. |
| Ranges.ParseNumberRangesRoundTrip | util.go:9-36 | Joining valid selections with commas and parsing gives back exactly their indices, in order. |
| RangesExamples.SingleNumber | util_test.go:17-22 | "3" with max 5 gives [2]. |
| RangesExamples.SingleRange | util_test.go:23-28 | "1-3" gives [0,1,2]. |
| RangesExamples.MixedSelections | util_test.go:29-34 | "1-2,4,5" gives [0,1,3,4]. |
| RangesExamples.MultipleRanges | util_test.go:35-40 | "1-2,3-5" gives [0,1,2,3,4]. |
| RangesExamples.RangeAtMax | util_test.go:41-46 | "4-5" with max 5 gives [3,4]. |
| RangesExamples.InvertedRange | util_test.go:47-52 | "3-1" fails with `invalid range: 3-1`. |
| RangesExamples.NumberAboveMax | util_test.go:53-58 | "6" with max 5 fails with the message `invalid number: 6`. |
| RangesExamples.RangeAboveMax | util_test.go:59-64 | "4-6" with max 5 fails with the message `invalid range: 4-6`. |
| RangesExamples.NotANumber | util_test.go:65-70 | "a" fails with `invalid number: a`. |
| RangesExamples.RangeNotANumber | util_test.go:71-76 | "1-a" fails with `invalid range: 1-a`. |
| RangesExamples.EmptyInput | util_test.go:77-82 | The empty input fails with `invalid number: ` for the empty token. |
| RangesExamples.SpacesIgnored | util_test.go:83-88 | " 1-2 , 4 , 5 " gives [0,1,3,4]. |
| RangesExamples.OverlapsKept | util_test.go:89-94 | "1-3,2-4" gives [0,1,2,1,2,3], keeping the overlap. |

## Findings

| source | as written | input that shows it | evidently intended | confidence | as-written member | corrected member |
|---|---|---|---|---|---|---|
| core.go:100-108 | Growth tests for a stop word at the candidate's current last byte, then adds the next byte. A candidate therefore takes in the first byte of a stop word before it stops. | Names `["a[b", "a[b"]`, stop words `["["]`, no trim bytes, `minMatch` 0. The result is `"a["`. The same happens with the stop word `"] "` whenever `]` is not a trim byte. | A stop word is a hard boundary that the common part must not include. Growth should test the byte it is about to add, so the result is `"a"`. | medium, not executed | StopExamples.StopWordKept | Search.CommonPrefixSplitClean |

`CommonPrefixSplit` stays the model of the code as written. The corrected
search shares every definition with it except the byte `Candidates.Grow`
tests, and `StopExamples.StopWordLeft` shows it on the same input.

## Left out

- `MoveFilesToFolder` (core.go:139-163) and the command in cmd/mvcommon/main.go
  are left out. They are file-system I/O, flag handling and terminal prompts.
- Search.CommonPrefixSplit: the model promises *some* winner, not the one a given run returns. Go's map iteration order, which decides among tied groups of one round, is random.
- The scenarios of core_test.go:18-80 are not proved. Each needs several rounds
  of tables over names of 10 to 40 bytes, which is too large to evaluate
  symbolically. Only their ingredients are shown: the stop-word seeding of
  `SearchExamples.SeedsWithStopWord` and the small instance in `SearchExamples`.
- Strconv.Atoi: integers are unbounded, so the out-of-range error Go's `strconv.Atoi` gives for values beyond 64 bits is not modelled. Such a token is then rejected by the bound check against `max`, with the same error text, for any `max` below 2^63.
- Rounds.Score: `sum*100` is computed without 64-bit wrap-around. Overflow would need total positions above about 9·10^16.
- `strings.Trim` and `strings.TrimSpace` are modelled byte-wise. `TrimSpace`
  covers ASCII white space only; Unicode spaces and UTF-8 decoding are not
  modelled.
- `trimMap` (core.go:30-36) is modelled as membership in the `trim` string.
- Errors are modelled as the `ParseError` datatype, and `Ranges.Message`
  gives the text `fmt.Errorf` would build.
