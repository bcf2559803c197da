# Dota 2 team balancer — a verified model of its core

The Dota 2 team balancer is a small web app. The user types a roster of players, one per line,
as `name,rank,positions`. The app then lists the best ways to split the first ten players into
two teams of five, Radiant and Dire. Each split is scored by two numbers:

- its role coverage: how many of the five roles (positions "1" to "5") the Radiant side can fill,
  plus how many the Dire side can fill;
- its rank gap: the absolute difference between the two sides' rank sums.

Splits are ranked by coverage first, highest first, then by rank gap, lowest first.

This project models the two functions that do that work and proves what they promise.

- **`getBalanceOptions`** (`src/components/BalanceView.tsx`) is modelled in `balance_view.dfy`,
  `masks.dfy` and `options.dfy`.
  - The step-by-step parts are methods with loop invariants:
    - the loop over the 1024 bit masks (`BalanceView.EnumerateSplits`);
    - the partition of the roster by a mask (`BalanceView.PartitionByMask`);
    - the role-coverage loop (`BalanceView.CoverageOf`);
    - the in-place stable sort (`Options.SortInPlace`).
  - Each method is proved equal to a specification function.
  - Lemmas then prove properties of those functions:
    - `bitCount` equals the arithmetic population count;
    - exactly 126 masks are kept, and each 5/5 partition is listed once;
    - each split divides the roster;
    - the scores are bounded;
    - the sort gives a sorted, stable permutation, and that permutation is unique;
    - the best option comes first.
- **`validateAndParseText`** (`src/components/TeamSetupForm.tsx`) is modelled in
  `team_setup_form.dfy`.
  - It uses the JavaScript string operations it needs (`trim`, `split`, `parseInt`), which are
    modelled in `js_strings.dfy`.
  - The `forEach` callback is a method over the line (`TeamSetupForm.HandleLine`). The whole
    parse is a method (`TeamSetupForm.ValidateAndParseText`).
  - Both methods are proved equal to a fold of per-line outcomes.
  - Lemmas then prove:
    - the rule of each field: a missing name or rank, a rank that is not a number, absent
      positions, invalid labels (whose player is still added), and fields after the third;
    - the count check;
    - blank lines are skipped;
    - the last error set wins;
    - an error-free parse has exactly ten well-formed players;
    - a printed player line reads back as the same player.
- `sample_roster.dfy` proves that `DEFAULT_TEXT` parses, without an error, to its ten players.
- `pipeline.dfy` proves what the balance view shows for any text the form accepts.

The modules follow the source:

| module | contents |
|---|---|
| `Types` | `src/types/index.ts` |
| `Masks` | bit arithmetic of the mask loop |
| `Options` | `BalanceOption` and its sort |
| `BalanceView` | `getBalanceOptions` |
| `JsStrings` | the string built-ins |
| `TeamSetupForm` | `validateAndParseText` |
| `SampleRoster` | `DEFAULT_TEXT` |
| `Pipeline` | how `src/App.tsx` wires the form to the view |

## Model

| member | source | states |
|---|---|---|
| Types.ValidPositionsCount | src/types/index.ts:1 | There are exactly five role labels, "1" to "5". |
| Masks.BitCountIsPopCount | src/components/BalanceView.tsx:23 | The bitCount helper is the number of '1' digits in the binary numeral. It equals the arithmetic population count of the mask. |
| Masks.KeptMasksMembers | src/components/BalanceView.tsx:33-35 | A mask survives the two `continue` filters exactly when it is below the bound, has five bits set and has bit 0 set. |
| Masks.KeptMasksIncreasing | src/components/BalanceView.tsx:33 | The kept masks are visited in strictly increasing order. |
| Masks.KeptMaskCount | src/components/BalanceView.tsx:32-35 | Of the 2^10 masks, exactly 126 are kept, which is C(9,4). |
| Masks.CountPopBinomial | src/components/BalanceView.tsx:32-35 | Among the masks below 2^n, the number with k bits set is C(n,k). |
| Masks.PartitionEnumeratedOnce | src/components/BalanceView.tsx:33-35 | For a mask with five of ten bits set, exactly one of the mask and its complement is kept. |
| Masks.ComplementPopCount | src/components/BalanceView.tsx:34 | Complementing an n-bit mask turns a popcount of p into n - p. |
| Masks.BitsDetermineMask | src/components/BalanceView.tsx:40 | Two n-bit masks that agree on every tested bit `mask & (1 << i)` are equal. |
| Masks.KeptMaskBits | src/components/BalanceView.tsx:33-35 | Every kept mask is below 1 << n and has bit 0 set. Five of its bits below n are set, and none at position n or above. |
| Masks.MaskForSet | src/components/BalanceView.tsx:33 | Every set of indices below n is the set of bits of some mask the loop visits. |
| Masks.BitSetCard | src/components/BalanceView.tsx:34 | The number of bits set below n is the size of the mask's set of indices. |
| Masks.ComplementBitSet | src/components/BalanceView.tsx:35-40 | The complement mask deals exactly the other indices below n. |
| Masks.OppositeNotBothKept | src/components/BalanceView.tsx:35 | Two masks dealing opposite sides are never both kept, because only one of them has bit 0 set. |
| Masks.KeptDealsOnce | src/components/BalanceView.tsx:33-35 | Two kept masks that deal the same set, to either side, are the same mask. |
| Masks.SubsetDealtOnce | src/components/BalanceView.tsx:33-35 | Each five-element set of the ten indices is dealt by exactly one position of the kept-mask list. |
| Options.Compare | src/components/BalanceView.tsx:59-63 | The comparator is negative exactly when a has higher coverage, or equal coverage and a lower diff. It is zero exactly when coverage and diff are both equal. It is non-positive (at most 0) exactly when a may stay before b: higher coverage, or equal coverage and a diff no larger than b's. |
| Options.SortPermutes | src/components/BalanceView.tsx:59 | The stable sort keeps the same multiset of options and the same length. |
| Options.SortSorted | src/components/BalanceView.tsx:59-63 | The sorted list is ordered by the comparator. |
| Options.SortStable | src/components/BalanceView.tsx:59 | Options with equal keys keep their original relative order, as Array.prototype.sort guarantees. |
| Options.StableSortUnique | src/components/BalanceView.tsx:59-63 | Two sorted lists that hold the same options of each key, in the same order, are equal. |
| Options.SortCharacterised | src/components/BalanceView.tsx:59-63 | Any sorted rearrangement that keeps the order within each key is exactly the result of the sort. |
| Options.SortFirstIsBest | src/components/BalanceView.tsx:59-63 | The first sorted option is at least as good as every option in the input. |
| Options.InsertPermutes | src/components/BalanceView.tsx:59 | Inserting one option adds exactly that option. |
| Options.InsertSorted | src/components/BalanceView.tsx:59-63 | Inserting into a sorted list keeps it sorted. |
| Options.InsertWithKey | src/components/BalanceView.tsx:59 | An inserted option goes after every earlier option of its key. |
| Options.SortInPlace | src/components/BalanceView.tsx:59-63 | Sorting the array in place leaves it holding the stable sort of its old contents. |
| Options.InsertAt | src/components/BalanceView.tsx:59-63 | One pass moves a[i] into the sorted prefix a[..i] and leaves the rest of the array alone. |
| Options.InsertionPoint | src/components/BalanceView.tsx:59-63 | An option goes in after the last element that does not rank below it. |
| BalanceView.Abs | src/components/BalanceView.tsx:54 | Math.abs gives a non-negative number equal to x or to -x. |
| BalanceView.CoverageOf | src/components/BalanceView.tsx:24-28 | The loop that adds labels to a Set returns the number of distinct labels in the group. |
| BalanceView.CoverageAtMostFive | src/components/BalanceView.tsx:27 | A group whose labels are all role labels covers at most five roles. |
| BalanceView.LabelsMembers | src/components/BalanceView.tsx:26 | A label is in a group's set exactly when some player of the group lists it. |
| BalanceView.PartitionByMask | src/components/BalanceView.tsx:37-41 | The partition loop puts players whose mask bit is set in Radiant and the rest in Dire, both in roster order. |
| BalanceView.IndicesCharacterised | src/components/BalanceView.tsx:39-40 | A side takes exactly the roster indices whose bit matches the side, in increasing order. |
| BalanceView.SideAtIndices | src/components/BalanceView.tsx:39-40 | Entry k of a side is the roster player at that side's k-th index. |
| BalanceView.SideSizes | src/components/BalanceView.tsx:37-41 | Radiant has as many players as the mask has bits among the roster's indices. The two sides together have the roster's length. |
| BalanceView.SidesPermuteRoster | src/components/BalanceView.tsx:37-41 | Radiant and Dire together are a permutation of the roster. |
| BalanceView.FirstInRadiant | src/components/BalanceView.tsx:35 | When bit 0 is set, the first roster player leads Radiant. |
| BalanceView.ComplementSwapsSides | src/components/BalanceView.tsx:35-40 | The complement mask swaps Radiant and Dire. |
| BalanceView.RankSumSplit | src/components/BalanceView.tsx:47-48 | The two sides' rank sums add up to the roster's rank sum. |
| BalanceView.SideLabels | src/components/BalanceView.tsx:43-44 | A side covers no label that the roster lacks. |
| BalanceView.ScoreSplit | src/components/BalanceView.tsx:37-55 | Scoring a mask builds the option for that mask. |
| BalanceView.SplitScores | src/components/BalanceView.tsx:43-55 | The option's coverage is the sum of its two sides' distinct-label counts, at most 10 when all labels are roles. Its diff is the absolute value of sumA - sumB, which is never negative. |
| BalanceView.CoverageAtMostTen | src/components/BalanceView.tsx:45 | With role labels only, the coverages of the two sides add up to at most 10. |
| BalanceView.SkippedMask | src/components/BalanceView.tsx:34-35 | A mask rejected by either `continue` adds nothing to allSplits. |
| BalanceView.KeptMask | src/components/BalanceView.tsx:33-55 | A mask with five bits set and bit 0 set appends its option to allSplits. |
| BalanceView.OptionsForAt | src/components/BalanceView.tsx:50-55 | Entry k of allSplits is the option of the k-th kept mask. |
| BalanceView.EnumerateSplits | src/components/BalanceView.tsx:30-56 | The mask loop pushes one option per kept mask, in mask order. |
| BalanceView.AllSplitsShape | src/components/BalanceView.tsx:30-56 | For ten players, allSplits has 126 entries. Each one is a 5/5 split that permutes the roster and has roster[0] first in Radiant. |
| BalanceView.PartitionsEnumeratedOnce | src/components/BalanceView.tsx:33-41 | Each unordered 5/5 partition of the roster is produced by exactly one of its two masks. |
| BalanceView.EachPartitionListedOnce | src/components/BalanceView.tsx:33-41 | For each choice of five of the ten roster indices, exactly one entry k of allSplits has Radiant indices equal to that choice or to the other five. |
| BalanceView.FirstTenOnly | src/components/BalanceView.tsx:18-19 | With fewer than ten players the result is empty. Otherwise only the first ten players matter. |
| BalanceView.BalanceOptionsLength | src/components/BalanceView.tsx:18-65 | The result has min(maxOptions, 126) entries for ten or more players, and none otherwise. |
| BalanceView.BalanceOptionsOrdered | src/components/BalanceView.tsx:59-65 | The returned options are ordered by coverage, highest first, then by diff, lowest first. |
| BalanceView.BalanceOptionsFromSplits | src/components/BalanceView.tsx:59-65 | Every returned option is one of the splits of the first ten players. |
| BalanceView.BestFirst | src/components/BalanceView.tsx:59-65 | With maxOptions at least 1, the first option is at least as good as every split. |
| BalanceView.StableResult | src/components/BalanceView.tsx:59-65 | The result is the first min(maxOptions, 126) entries of the unique stable ordering of the splits. |
| BalanceView.GetBalanceOptions | src/components/BalanceView.tsx:13-66 | The method computes exactly the specification BalanceOptions. The lemmas above state what that result is. |
| JsStrings.TrimCharacterised | src/components/TeamSetupForm.tsx:48 | trim removes a run of white space from each end and nothing else. |
| JsStrings.TrimEmpty | src/components/TeamSetupForm.tsx:54 | A line trims to "" exactly when it is all white space. |
| JsStrings.TrimIdempotent | src/components/TeamSetupForm.tsx:48 | Trimming twice is the same as trimming once. |
| JsStrings.TrimFramed | src/components/TeamSetupForm.tsx:4-15 | Trimming a text framed by line breaks returns the text inside the frame. |
| JsStrings.JoinSplit | src/components/TeamSetupForm.tsx:57 | Joining the pieces of a split with the same separator gives back the text. |
| JsStrings.SplitJoin | src/components/TeamSetupForm.tsx:57 | Splitting a join of separator-free pieces gives back the pieces. |
| JsStrings.SplitAppend | src/components/TeamSetupForm.tsx:57 | Splitting s + sep + t gives the pieces of s followed by the pieces of t. |
| JsStrings.SplitPieceChars | src/components/TeamSetupForm.tsx:57 | Every character of a piece comes from the split string. |
| JsStrings.DigitPrefix | src/components/TeamSetupForm.tsx:68 | The digits parseInt reads are the longest prefix of decimal digits. |
| JsStrings.NatToStringValue | src/components/TeamSetupForm.tsx:68 | The decimal numeral of n has value n. |
| JsStrings.ParseIntRoundTrip | src/components/TeamSetupForm.tsx:68-69 | parseInt reads back any printed integer followed by a non-digit or by nothing. |
| JsStrings.ParseDigitsFirst | src/components/TeamSetupForm.tsx:68-69 | A text that starts with a digit is never NaN to parseInt. |
| TeamSetupForm.CharLabels | src/components/TeamSetupForm.tsx:74-77 | split("") gives one label per character of the positions field. |
| TeamSetupForm.LastInvalidCharacterised | src/components/TeamSetupForm.tsx:78-82 | No position error occurs exactly when every label is valid. Otherwise the message names the last invalid label. |
| TeamSetupForm.CheckPositions | src/components/TeamSetupForm.tsx:78-82 | The loop leaves the message of the last invalid label, or the earlier message if every label is valid. |
| TeamSetupForm.ParseFields | src/components/TeamSetupForm.tsx:57-89 | A non-blank line is never blank. It is rejected only with the missing-fields or rank message. An accepted player has a trimmed, non-empty name and reports a position error exactly when a label is not a role. The rule lemmas below state each branch. |
| TeamSetupForm.MissingFieldsRule | src/components/TeamSetupForm.tsx:57-66 | A line is rejected with "Please enter player name, rank and positions for all players." exactly when its trimmed first or second field is missing or empty. |
| TeamSetupForm.RankRule | src/components/TeamSetupForm.tsx:68-72 | With name and rank present, the line is rejected with "Rank must be a number." exactly when parseInt finds no number in the trimmed rank. Otherwise the player has the trimmed name and the parsed rank, for any rank text such as "12abc". |
| TeamSetupForm.PositionsRule | src/components/TeamSetupForm.tsx:73-83 | An accepted player has the characters of the trimmed third field as labels, with the error for the last invalid one. If that field is absent or blank, the player has all five roles and no error. |
| TeamSetupForm.InvalidLabelKept | src/components/TeamSetupForm.tsx:78-89 | A player with an invalid label is still appended, and the error names one of its invalid labels. |
| TeamSetupForm.NamedLineNotBlank | src/components/TeamSetupForm.tsx:54 | A line with a non-blank name is not skipped as blank. |
| TeamSetupForm.WhiteSpaceLabel | src/components/TeamSetupForm.tsx:74-79 | A white-space character inside the positions field becomes the label "", which is not a role. |
| TeamSetupForm.ExtraFieldsIgnored | src/components/TeamSetupForm.tsx:57-60 | Fields after the third change nothing: appending ",extra" to a line of three or more fields gives the same outcome. |
| TeamSetupForm.LineErrors | src/components/TeamSetupForm.tsx:63-80 | Every error a line sets is the missing-fields message, the rank message or an invalid-position message. |
| TeamSetupForm.FoldErrors | src/components/TeamSetupForm.tsx:53-98 | The error left after all lines, if any, is one of those line messages. |
| TeamSetupForm.CountMessageDistinct | src/components/TeamSetupForm.tsx:100 | "Please enter at 10 players." is not a message any line sets. |
| TeamSetupForm.CountRule | src/components/TeamSetupForm.tsx:99-102 | The result has the fold's players. The error is the count message exactly when no line set an error and there are not ten players. Otherwise it is the error the lines left. |
| TeamSetupForm.HandleLine | src/components/TeamSetupForm.tsx:53-98 | The forEach callback updates errorMessage and players as one step of the line fold. |
| TeamSetupForm.ValidateAndParseText | src/components/TeamSetupForm.tsx:44-107 | The method returns exactly the result of the fold followed by the count check. |
| TeamSetupForm.ApplyAppend | src/components/TeamSetupForm.tsx:53 | Folding a + b is folding a, then folding b. |
| TeamSetupForm.ApplyFrom | src/components/TeamSetupForm.tsx:53-98 | Players from later lines are appended, and a later error replaces an earlier one. |
| TeamSetupForm.LastErrorWins | src/components/TeamSetupForm.tsx:63-80 | For lines a + b, the players are those of a followed by those of b. The error is b's if b sets one, and a's otherwise. |
| TeamSetupForm.BlankLineSkipped | src/components/TeamSetupForm.tsx:54 | Inserting a blank or all-white-space line anywhere changes nothing. |
| TeamSetupForm.ParseLinesPrefix | src/components/TeamSetupForm.tsx:53 | Lines are handled one at a time, in order. |
| TeamSetupForm.PlayerCountBound | src/components/TeamSetupForm.tsx:53-98 | No more players are collected than there are non-blank lines. |
| TeamSetupForm.NonBlankOutcomes | src/components/TeamSetupForm.tsx:54 | A line's outcome is blank exactly when its trimmed text is empty. |
| TeamSetupForm.LineWellFormed | src/components/TeamSetupForm.tsx:62-89 | A player accepted without a position error has a non-empty trimmed name and only role labels. |
| TeamSetupForm.NoErrorWellFormed | src/components/TeamSetupForm.tsx:53-98 | When no line sets an error, every collected player is well formed. |
| TeamSetupForm.ErrorFreeResult | src/components/TeamSetupForm.tsx:99-102 | An error-free result has exactly ten players, all well formed. |
| TeamSetupForm.LabelsRoundTrip | src/components/TeamSetupForm.tsx:74-77 | Writing role labels side by side and splitting them again gives back the labels. |
| TeamSetupForm.SplitFields | src/components/TeamSetupForm.tsx:57 | A line made of three comma-free fields splits back into those fields. |
| TeamSetupForm.AcceptedFields | src/components/TeamSetupForm.tsx:57-89 | Three present, trimmed fields with a numeric rank and valid labels give that player, with no error. |
| TeamSetupForm.FieldsReadBack | src/components/TeamSetupForm.tsx:57-89 | The fields of a printed player read back as the same player, with no error. |
| TeamSetupForm.ParseFormatLine | src/components/TeamSetupForm.tsx:53-89 | A player printed as `name,rank,positions` reads back as the same player, with no error. |
| SampleRoster.FramedLines | src/components/TeamSetupForm.tsx:4-15 | A template literal that frames its lines with line breaks gives back those lines after trim and split. |
| SampleRoster.AllAccepted | src/components/TeamSetupForm.tsx:53-98 | Lines that each accept a player with no error give exactly those players. |
| SampleRoster.AcceptedText | src/components/TeamSetupForm.tsx:44-102 | Ten lines that each accept a player with no error give those ten players with a null error. |
| SampleRoster.DefaultLinesAccepted | src/components/TeamSetupForm.tsx:5-14 | Each line of DEFAULT_TEXT reads back as its player. |
| SampleRoster.DefaultTextParses | src/components/TeamSetupForm.tsx:4-15 | DEFAULT_TEXT parses without an error into its ten players, in order. SumaiL gets rank 11400 and positions "1" and "2". |
| Pipeline.ParsedRosterBalances | src/components/TeamSetupForm.tsx:124-137 | For any text the form accepts, the view shows min(maxOptions, 126) options. Each is a 5/5 permutation of the parsed players with coverage between 0 and 10. |
| Pipeline.RosterBalances | src/App.tsx:12-13 | Ten players with role labels only give min(maxOptions, 126) options. Each is a 5/5 split of them with coverage at most 10. |
| Pipeline.DefaultRosterBalances | src/components/TeamSetupForm.tsx:40-42 | On first load the view receives DEFAULT_TEXT's ten players. It shows min(maxOptions, 126) of their splits, each with coverage at most 10. |

## Left out

- React components, JSX, state hooks, colours and console output are not modelled. The model
  covers only what flows from the text to the list of options.
- The URL path of the `useEffect` hook (`src/components/TeamSetupForm.tsx:25-39`) is not modelled.
  That covers `URLSearchParams`, `atob`/`btoa` and `history.replaceState`, which are browser I/O.
  - That path hands the parsed players to the view even when the parse reported an error (line 37).
  - So the balancer is modelled for any list of players.
  - Its coverage bound (`BalanceView.SplitScores`) is stated only for rosters whose labels are all
    role labels. The component comments claim 0-10 without that condition. A side with other
    labels can cover more than five.
- The inner and outer `catch` blocks of `validateAndParseText` are not modelled. No modelled string
  operation can throw, so they are unreachable in the model. As a result, no "ERROR" player and no
  "An unexpected error occurred." message occur.
- `BalanceView.GetBalanceOptions`: `maxOptions` is a natural number. The negative and fractional
  arguments that `Array.prototype.slice` also accepts are not modelled.
- `BalanceView.GetBalanceOptions`: the default value 5 of `maxOptions` is a caller's choice. The
  model always takes the argument explicitly.
- `JsStrings.ParseInt`: models `parseInt` for decimal text only, as the source uses it:
  - leading white space, an optional sign, then the longest run of decimal digits;
  - NaN when there are no digits.

  It does not model the "0x" hexadecimal prefix. The rank is an unbounded integer, so JavaScript
  number precision and `Infinity` for very long numerals are not modelled.
- Ranks and sums are unbounded integers. The source's double-precision arithmetic is exact for any
  realistic rank.
- Strings are sequences of Dafny characters, not UTF-16 code units. Surrogate pairs, which
  `split("")` would cut in two, are not modelled. The white-space set of `trim` is modelled as
  ECMAScript defines it.
- `Options.SortInPlace` is an insertion sort. ECMAScript requires only that the sort be stable, and
  `Options.SortCharacterised` proves that every stable sort gives the same result. So the choice of
  algorithm does not change the outcome.
- `Position` is a string rather than the union of the five role labels. The parser casts any one-character
  label to `Position` (line 77), so invalid and empty labels occur, and the model keeps them.
- The `Team` type (`src/types/index.ts:9-12`) is not used by the core and is not modelled.
