# Ticket status history scraper: a Dafny model

`src/word-2-excel.py` reads a ticket exported as a Word document and finds every
status change in it. A status change is a line with a clause
`"from <status> to <status>"` (or the opening `"to Opened"`) followed by an
`(effective <date> <hour> AM|PM)` timestamp. For each change the script records
the from-status, the to-status and the timestamp, and writes the records in
order of time to a CSV file.

This project models the script's core:

- `pystr.dfy` (`PyStr`) holds the Python `str` operations the script is
  built from, with Python's edge cases:
  - `find` answers -1 and honours a negative start;
  - `index` raises, modelled as `None`;
  - slices take negative and out-of-range bounds;
  - `strip` removes Unicode whitespace;
  - `replace` rewrites occurrences left to right without overlap.
- `clauses.dfy` (`Clauses`) covers `make_permutations` and the split of a
  clause back into its two statuses:
  - `make_permutations` builds the 30 `"from A to B"` clauses from
    `itertools.permutations` of the six keywords, then appends `"to Opened"`;
  - the split uses `strip`, `"from " in`, `index(" to ")` and
    `index("to ")`.
- `clause_search.dfy` (`ClauseSearch`) covers `find_clause_index`. It finds
  a clause, then walks line by line until a line mentions "AM" or "PM".
  The method is proved equal to a recursive reference walk (`Walk`), and the
  walk is proved to answer the first line that mentions a time.
- `effective.dfy` (`Effective`) covers the `(effective …)` cut, the
  `" PM"` → `":00 PM"` and `" AM"` → `":00 AM"` padding, and the
  `split(" ", 1)` that follows. There are two versions:
  - the steps as written (`EffectiveTimeAsWritten`);
  - the steps with the cut corrected (`EffectiveTime`); see "## Findings".
- `timeline.dfy` (`Timeline`) covers the records and `sorted(…, key=timestamp)`.
  It is a stable sort, proved to give an ascending permutation that keeps
  the input order of equal times, and proved to be the only such sequence.

## Model

| member | source | states |
|---|---|---|
| `PyStr.Find` | src/word-2-excel.py:50 | the answer is -1 exactly when `sub` occurs at no position from the start (a negative start counting from the end); otherwise it is the first occurrence at or after that adjusted start |
| `PyStr.Contains` | src/word-2-excel.py:131 | `sub in s`: the empty string is in every string, and nothing longer than `s` is in it |
| `PyStr.ContainsIff` | src/word-2-excel.py:131 | `sub in s` holds exactly when `sub` occurs at some position of `s` |
| `PyStr.IndexOf` | src/word-2-excel.py:133 | `index` fails exactly when `sub` is absent; otherwise it answers the first occurrence |
| `PyStr.SliceBound` | src/word-2-excel.py:63 | a slice bound is clamped to `[0, n]`, and a negative one counts from the end |
| `PyStr.Slice` | src/word-2-excel.py:63 | `s[i:j]` is `s[i..j]` for in-range bounds, and stops one short of the end for `j == -1` |
| `PyStr.SliceFromLastIsEmpty` | src/word-2-excel.py:63-68 | the slice `text[-1:e]` taken after the walk runs off the last newline is empty |
| `PyStr.StripLeft` | src/word-2-excel.py:110 | the result is a suffix, everything dropped is whitespace, and it does not start with whitespace |
| `PyStr.StripRight` | src/word-2-excel.py:110 | the result is a prefix, everything dropped is whitespace, and it does not end with whitespace |
| `PyStr.Strip` | src/word-2-excel.py:110 | the result is empty exactly when the text is all whitespace; otherwise neither end is whitespace |
| `PyStr.StripPadded` | src/word-2-excel.py:129 | stripping `w1 + x + w2` (whitespace around a core with non-space ends) gives back exactly `x` |
| `PyStr.Replace` | src/word-2-excel.py:113 | replacing a pattern with itself changes nothing, and a replacement at least as long as the pattern never shortens the text |
| `PyStr.ReplaceKeepsPrefix` | src/word-2-excel.py:113 | text before the first occurrence of the pattern is copied unchanged |
| `PyStr.ReplaceAbsent` | src/word-2-excel.py:113 | text without the pattern comes back unchanged |
| `PyStr.ReplaceAtFirst` | src/word-2-excel.py:113 | `replace` keeps the text before the first `find` match, writes `rep` for it, and replaces the rest in turn |
| `PyStr.ReplaceAtEnd` | src/word-2-excel.py:116 | where the pattern occurs only at the very end, only that occurrence is rewritten |
| `Clauses.PairsWithAt` | src/word-2-excel.py:36 | position `k` of row `i` of `permutations` pairs `xs[i]` with the `k`-th element other than `xs[i]`; the row has `|xs| - 1` pairs |
| `Clauses.PairsFromLength` | src/word-2-excel.py:36 | the rows from `i` on, laid end to end, are `|xs| - 1` pairs each |
| `Clauses.PairsFromAt` | src/word-2-excel.py:36 | `permutations(xs, 2)` lists the pairs row by row, the first element running over `xs` in order |
| `Clauses.OrderedPairsAt` | src/word-2-excel.py:36 | entry `r * (n - 1) + k` of `permutations(xs, 2)` is `(xs[r], xs[Skip(r, k)])` |
| `Clauses.OrderedPairs` | src/word-2-excel.py:36 | `permutations(xs, 2)` has `n * (n - 1)` entries |
| `Clauses.SearchClauses` | src/word-2-excel.py:36-44 | the clause list has one clause per ordered pair plus one, and the opening clause is last |
| `Clauses.BuildClauses` | src/word-2-excel.py:36-45 | the loop appends one `"from A to B"` per permutation, in order, then the opening clause; the length is `n * (n - 1) + 1` |
| `Clauses.MakePermutations` | src/word-2-excel.py:30-45 | the result is the clause list for the six keywords: 31 clauses, the last `"to Opened"` |
| `Clauses.ClauseAt` | src/word-2-excel.py:36-41 | for any keyword list, the clause at permutation position `(r, k)` is `"from " + keywords[r] + " to " + keywords[Skip(r, k)]` |
| `Clauses.SearchClauseAt` | src/word-2-excel.py:33-41 | clause `p < 30` joins keyword `p / 5` to a different keyword, the `p % 5`-th other one |
| `Clauses.SearchClausesCoverPairs` | src/word-2-excel.py:33-41 | every ordered pair of different keywords has its clause among the 31, at its permutation position |
| `Clauses.SearchClausesDistinct` | src/word-2-excel.py:33-44 | no two of the 31 clauses are equal |
| `Clauses.KeywordsAreSplittable` | src/word-2-excel.py:33 | no keyword has a word starting with a lower-case `t`, and none ends in whitespace |
| `Clauses.KeywordsDistinct` | src/word-2-excel.py:33 | the six keywords are pairwise different |
| `Clauses.SplitClause` | src/word-2-excel.py:129-136 | the split fails (the ValueError of `index`) exactly when the separator its branch looks for is missing; the branch without `"from "` reports the from-status `"None"` |
| `Clauses.FirstSeparator` | src/word-2-excel.py:135 | in `"from A to B"` the first `" to "` is the one after `A`, when no word of `A` starts with `t` |
| `Clauses.SplitClauseRoundTrip` | src/word-2-excel.py:129-136 | splitting `"from A to B"` gives back `(A, B)` |
| `Clauses.SplitOpeningRoundTrip` | src/word-2-excel.py:129-133 | splitting `"to B"` gives the missing from-status `"None"` and `B` |
| `Clauses.SplitOpeningClause` | src/word-2-excel.py:44 | splitting `"to Opened"` gives `("None", "Opened")` |
| `Clauses.SplitSearchClause` | src/word-2-excel.py:129-136 | splitting any clause from `make_permutations` gives back the keywords it was built from |
| `ClauseSearch.FindNewline` | src/word-2-excel.py:57 | a newline search answers -1 or the position of a newline |
| `ClauseSearch.HasTime` | src/word-2-excel.py:64 | the line test: "AM" or "PM" occurs, so a line that passes has at least two characters |
| `ClauseSearch.Walk` | src/word-2-excel.py:59-68 | the reference walk, line by line, each new line starting at the last newline and ending at the newline found two characters on; it answers a line that mentions AM or PM, and a walk that runs out of steps after at least one step ends on a line with no time |
| `ClauseSearch.WalkStopsAtFirstTimeLine` | src/word-2-excel.py:59-68 | if the walk's first `k` lines have no time and line `k` (within the fuel) has one, the walk answers line `k` and where it starts |
| `ClauseSearch.WalkExhausted` | src/word-2-excel.py:61-68 | when none of the first `fuel` lines has a time, the walk runs out of steps |
| `ClauseSearch.NoTimeBeforeAt` | src/word-2-excel.py:61-68 | "no time before line `k`" means each of the lines `0 .. k-1` of the walk fails the AM/PM test |
| `ClauseSearch.WalkFrom` | src/word-2-excel.py:61-68 | the `while` loop gives exactly the reference walk's outcome; a found line starts inside the text, ends at the newline search result it was cut at, and mentions AM or PM |
| `ClauseSearch.FindClauseIndex` | src/word-2-excel.py:48-70 | the contract covers four cases. (1) A missing clause gives `(-1, "")`. (2) Otherwise the outcome is the reference walk's, started at the clause's line. (3) A found line is `text[index:lineEnd]`, where `lineEnd` is a newline position or -1; for -1 the line stops one character short of the end. It lies inside the text and mentions AM or PM. (4) When the clause's own line has a time, that line and the clause's position come back |
| `Effective.CutEffectiveAsWritten` | src/word-2-excel.py:106-110 | a snippet without "(effective" is kept, and the cut never lengthens it |
| `Effective.CutEffective` | src/word-2-excel.py:106-110 | the same bounds for the corrected cut |
| `Effective.PadTime` | src/word-2-excel.py:112-116 | the padding never shortens the text, and leaves a text without `" PM"` or `" AM"` unchanged |
| `Effective.EffectiveTimeAsWritten` | src/word-2-excel.py:106-116 | lines 106-116 as written: a snippet without "(effective" is only padded |
| `Effective.EffectiveTime` | src/word-2-excel.py:106-116 | the same steps with the corrected cut (see Findings): a snippet without "(effective" is only padded |
| `Effective.SplitOnce` | src/word-2-excel.py:118 | `split(" ", 1)` gives one part exactly when there is no space; two parts join back with a space to the text, and the first has no space |
| `Effective.FindTag` | src/word-2-excel.py:106 | "(effective" is found right after a prefix with no "(" |
| `Effective.FindParen` | src/word-2-excel.py:109 | the search for ")" answers the first ")" at or after its start |
| `Effective.CutBetween` | src/word-2-excel.py:106-110 | the corrected cut of `pre + "(effective" + mid + ")" + post`, where the first "(effective" is the one after `pre`, is `mid` stripped |
| `Effective.CutBetweenAsWritten` | src/word-2-excel.py:106-110 | the cut as written agrees when `pre` holds no ")" |
| `Effective.AsWrittenLosesTime` | src/word-2-excel.py:109-110 | the cut as written is empty when a ")" comes before "(effective" |
| `Effective.CutsDisagree` | src/word-2-excel.py:109 | with a ")" before the first "(effective", the cut as written is empty while the corrected cut is `mid` stripped |
| `Effective.NumberedNoteBeforeTag` | src/word-2-excel.py:109 | the snippet `"\n1) (effective …)"` loses its time as written and keeps it when corrected |
| `Effective.NumberedNoteStopsRun` | src/word-2-excel.py:106-119 | on that snippet the steps as written give an empty timestamp text, whose `split(" ", 1)` has a single part, so `[1]` at line 119 has nothing to take |
| `Effective.SpacedImpliesBare` | src/word-2-excel.py:112-116 | `" PM"` occurs only where `"PM"` does |
| `Effective.PadTimeIsReplace` | src/word-2-excel.py:112-116 | the guarded padding is the same as two unconditional replaces |
| `Effective.PadAfternoon` | src/word-2-excel.py:112-113 | a time `x + " PM"` with no other M becomes `x + ":00 PM"` |
| `Effective.PadMorning` | src/word-2-excel.py:115-116 | a time `x + " AM"` with no other M becomes `x + ":00 AM"` |
| `Effective.CutTime` | src/word-2-excel.py:106-110 | the corrected cut of `pre + "(effective x PM)" + post`, where that tag is the first "(effective", is `x + " PM"` (and the same for AM), whatever parentheses `pre` holds |
| `Effective.CutTimeAsWritten` | src/word-2-excel.py:106-110 | the cut as written gives the same when, in addition, `pre` holds no ")" |
| `Effective.EffectiveAfternoonAsWritten` | src/word-2-excel.py:106-116 | lines 106-116 as written turn `pre + "(effective x PM)" + post`, with the first tag after `pre` and no ")" in `pre`, into `x + ":00 PM"` |
| `Effective.EffectiveMorningAsWritten` | src/word-2-excel.py:106-116 | the same for `"… (effective x AM) …"`, giving `x + ":00 AM"` |
| `Effective.EffectiveAfternoon` | src/word-2-excel.py:106-116 | the corrected steps turn `pre + "(effective x PM)" + post`, with the first tag after `pre`, into `x + ":00 PM"`, whatever `pre` holds, a parenthesised note included |
| `Effective.EffectiveMorning` | src/word-2-excel.py:106-116 | the corrected steps turn `pre + "(effective x AM)" + post`, with the first tag after `pre`, into `x + ":00 AM"`, whatever `pre` holds, a parenthesised note included |
| `Timeline.NotAfter` | src/word-2-excel.py:146 | the `datetime` order, field by field; every timestamp is not after itself |
| `Timeline.NotAfterTotal` | src/word-2-excel.py:146 | any two timestamps are comparable |
| `Timeline.NotAfterAntisymmetric` | src/word-2-excel.py:146 | timestamps that are each not after the other are equal |
| `Timeline.NotAfterTransitive` | src/word-2-excel.py:146 | the timestamp order is transitive |
| `Timeline.WithTime` | src/word-2-excel.py:144-147 | the records stamped `t`, no longer than the input and all stamped `t` |
| `Timeline.InsertByTime` | src/word-2-excel.py:144-147 | inserting adds exactly one record and keeps an ascending sequence ascending |
| `Timeline.SortByTime` | src/word-2-excel.py:144-147 | the sorted records are a permutation of the input, in ascending order of time |
| `Timeline.InsertStable` | src/word-2-excel.py:144-147 | insertion puts the new record before the others with its time and reorders none of them |
| `Timeline.SortByTimeStable` | src/word-2-excel.py:144-147 | records with equal times keep the order they were found in |
| `Timeline.SortByTimeUnique` | src/word-2-excel.py:144-147 | any ascending sequence whose equal-time groups are those of the input in input order is the sorted result |
| `Timeline.SameGroupsSame` | src/word-2-excel.py:144-147 | two ascending sequences with the same equal-time groups are equal |

## Left out

- Reading the Word document (`docx2txt`), the argument check and `create_excel_file`'s CSV writing (lines 15-23, 82-94, 149): these are I/O.
- The driver loop (lines 96-142) is not modelled. It resumes the search at `previous_index = idx`. When the clause's own line holds the time, `idx` is the clause's position, so the next call finds the same clause again.
- `convert24`, the join, the newline removal and `datetime.strptime` (lines 119-127) are not modelled. `convert24` is in a module that is not part of this model, and `strptime` is a library parser. Records carry the parsed time as a `DateTime` value. Of lines 118-119, only the `split(" ", 1)` and whether its `[1]` exists are modelled.
- `date_sort.py` is not part of this model.
- `ClauseSearch.FindClauseIndex`: the source's walk need not end. Once no newline follows, it restarts near the start of the text and can cycle. The model takes at most `fuel` steps and reports `exhausted`. An exhausted walk answers the reference walk's last position and line. The source would go on looking.
- `PyStr.Replace`: only for a non-empty pattern. The script only replaces `" PM"` and `" AM"`.
- `PyStr.IsSpace`: the whitespace set is that of Python's `str.isspace`, written out. Other Unicode properties are not modelled.
- `Timeline.SortByTime`: the key is the record's parsed time. The script re-parses the stored timestamp text, which is the text the time was parsed from. The sort is an insertion sort. It is proved to be the one stable ascending order, and `sorted` gives the same order.
- `Effective.PadAfternoon`: only for a time whose text before " PM" has no letter M. A text with other AM/PM marks is covered by `Effective.PadTimeIsReplace`.
- `Effective.PadMorning`: the same restriction, for " AM".

## Findings

| source | as written | input that shows it | evidently intended | confidence | as-written member | corrected member |
|---|---|---|---|---|---|---|
| src/word-2-excel.py:109 | `snippet.find(')')` searches for the closing parenthesis from the start of the snippet | the snippet `"\n1) (effective 1/2/21 3 PM)"` (the walk reached a numbered note line) or `"from A to B 1) (effective …)"`. The first ")" comes before "(effective", so the cut is empty. The padding leaves `""` unchanged, and `"".split(" ", 1)` is `[""]`. `_snippet_list[1]` at line 119 then raises an uncaught IndexError, and the run stops before any CSV is written | search for ")" from the "(effective" position | medium, not executed | `Effective.NumberedNoteStopsRun` | `Effective.CutBetween` |

The corrected cut (`Effective.CutEffective`) is the one `Effective.EffectiveTime` uses.
`Effective.CutsDisagree` shows the general case behind the finding. With any
`pre` that holds a ")" before the tag, the cut as written
(`Effective.CutEffectiveAsWritten`) is empty.
