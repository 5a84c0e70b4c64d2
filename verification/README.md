# MemoCross crossword core in Dafny

MemoCross builds a daily vocabulary crossword. Two independent greedy builders
lay the words on a square grid:

- the browser builder `generateCrossword` works on a 25 by 25 grid of strings;
- the server builder `generate_crossword` works on a 10 by 10 grid. It is the one
  the `/crossword/today` endpoint calls.

Both builders put the first word across the middle. Each later word is tried
as a crossing through an already placed word. If no crossing fits, it goes in
the first row-major slot where it fits. If nothing fits, it is silently dropped.
The endpoint upper-cases the vocabulary rows and builds the crossword. It then
numbers the clues 1 to n by zipping the rows with the placements. The
crossword page normalises the cells it receives and writes the clue numbers
on the start cells. It records what the player types, and after a check it
marks each word's cells correct or incorrect and shows the score.

The project has six modules:

- `GridStore` (`grid_store.dfy`) holds what both builders share. A grid is a
  value of blank and letter cells. The module defines the span of a word, the
  fit test `Fits`, the letter-by-letter write `Place`, what it means for a
  grid to read a word back, and the row-major scan `FirstFit`. A `Mirrors`
  predicate ties an `array2` to a grid value.
- `CrosswordUtils` (`crossword_utils.dfy`) models the browser builder. Its
  methods write an `array2` in place, as the source writes its `string[][]`.
  Each method is proved equal to a step of the functional specification
  `AddWord`, and the whole loop to `Generate`. The build invariants are proved
  about those functions.
- `CrosswordService` (`crossword_service.dfy`) models the server builder. The
  grid and the placement list that the source's closures share become the
  fields of a `Builder` class, and the closures and loops become its methods.
  The output-grid rendering is modelled too.
- `CrosswordApi` (`crossword_api.dfy`) models the pure part of
  `crossword_today`: the empty-input guard, the formatting, and the clue
  assembly.
- `CrosswordPage` (`crossword_page.dfy`) models the page's grid
  transformations.
- `Common` (`common.dfy`) holds `Option`, `Result` and ASCII case mapping.

What is proved, for both builders:

- The first word sits at the centre and is never moved.
- Each later word is placed at most once, exactly where the source's loops
  would put it. It is dropped exactly when no crossing candidate and no
  fallback slot fits.
- Every placed word lies inside the grid and reads back along its span, so
  no two words disagree on a shared cell.
- The placed words form an order-preserving subsequence of the input, and
  there are never more of them than inputs.

The endpoint numbers its clues by position. So when the server builder drops
a word, every later clue carries the wrong answer and clue text (see
Findings).

Clue numbers are positions, not cells: `crossword.py` numbers the clues 1
to n in placement order, so two words that start on the same cell get two
different numbers. `CrosswordApi.CatAndCarNumbers` shows the case.

## Model

| member | source | states |
|---|---|---|
| Common.Upper | backend/app/api/crossword.py:29 | upper-casing keeps the length, turns each lower-case ASCII letter into its capital and leaves every other character as it is |
| Common.Lower | backend/app/api/crossword.py:44 | lower-casing keeps the length, turns each capital ASCII letter into its lower-case form and leaves every other character as it is |
| Common.UpperIsIdempotent | backend/app/api/crossword.py:29 | upper-casing leaves no lower-case letter, a second upper-casing changes nothing, and an upper-case word is its own upper case |
| GridStore.EmptyGrid | frontend/src/app/crossword/CrosswordUtils.tsx:17-21 | the starting grid is n by n and every cell is blank |
| GridStore.Place | frontend/src/app/crossword/CrosswordUtils.tsx:79-83 | writing a word whose span lies in the grid keeps the grid square and of the same size |
| GridStore.PlaceAt | frontend/src/app/crossword/CrosswordUtils.tsx:79-83 | writing a word changes exactly the cells of its span, cell k to letter k, and leaves every other cell as it was |
| GridStore.PlaceReadsBack | frontend/src/app/crossword/CrosswordUtils.tsx:79-83 | after the write, the grid reads the word back along its span |
| GridStore.PlaceKeepsLetters | frontend/src/app/crossword/CrosswordUtils.tsx:61-83 | writing a word that passed the fit test never changes the letter of a non-blank cell |
| GridStore.PlaceKeepsReadsBack | frontend/src/app/crossword/CrosswordUtils.tsx:61-83 | writing a word that fits keeps every word the grid already read back readable |
| GridStore.SharedCellsAgree | frontend/src/app/crossword/CrosswordUtils.tsx:66 | two words the grid reads back agree on every cell they share |
| GridStore.FitsIsShort | frontend/src/app/crossword/CrosswordUtils.tsx:61-65 | a word that fits is no longer than the grid is wide |
| GridStore.EmptyGridFits | frontend/src/app/crossword/CrosswordUtils.tsx:61-68 | on an empty grid a word fits exactly where its whole span lies inside the grid |
| GridStore.FirstFit | frontend/src/app/crossword/CrosswordUtils.tsx:126-136 | the scan returns a position in the grid where the word fits, with no fitting position before it in row-major order; it returns none exactly when no position from the start on fits |
| GridStore.FirstFitNone | backend/app/services/crossword_service.py:104-111 | the scan from the top-left finds nothing exactly when the word fits nowhere in the grid |
| CrosswordUtils.CreateEmptyGrid | frontend/src/app/crossword/CrosswordUtils.tsx:17-21 | a new 25 by 25 array whose cells are all blank |
| CrosswordUtils.FirstShared | frontend/src/app/crossword/CrosswordUtils.tsx:29-31 | the first pair (i over the existing word, j over the new word) with equal letters, with no equal pair before it; none exactly when no pair from the start on is equal |
| CrosswordUtils.OverlapCandidate | frontend/src/app/crossword/CrosswordUtils.tsx:24-51 | no candidate exactly when the two words share no letter; otherwise the candidate is perpendicular to the existing word and puts letter j of the new word on letter i of the existing word, for the first shared pair |
| CrosswordUtils.FindOverlapPosition | frontend/src/app/crossword/CrosswordUtils.tsx:24-51 | the nested loop with early return computes that candidate, without reading the grid |
| CrosswordUtils.CanPlaceWord | frontend/src/app/crossword/CrosswordUtils.tsx:54-69 | true exactly when every cell of the span is inside the 25 by 25 grid and is blank or already holds the word's letter; the empty word always passes |
| CrosswordUtils.PlaceWord | frontend/src/app/crossword/CrosswordUtils.tsx:72-84 | the array afterwards holds the grid value with exactly the span written |
| CrosswordUtils.Choose | frontend/src/app/crossword/CrosswordUtils.tsx:104-137 | whatever position is chosen for a word carries that word and its clue and fits the current grid |
| CrosswordUtils.ChooseFirstOverlap | frontend/src/app/crossword/CrosswordUtils.tsx:110-122 | the candidate of the first placed word, in placement order, whose candidate fits is the one taken |
| CrosswordUtils.ChooseFallback | frontend/src/app/crossword/CrosswordUtils.tsx:125-137 | when no candidate fits, the word goes across at the first row-major slot that fits, or nowhere |
| CrosswordUtils.ChooseNone | frontend/src/app/crossword/CrosswordUtils.tsx:104-137 | nothing is chosen exactly when no placed word's candidate fits and no across slot fits |
| CrosswordUtils.Commit | frontend/src/app/crossword/CrosswordUtils.tsx:117-118 | writing a fitting word and recording it keeps the grid 25 by 25 |
| CrosswordUtils.AddWord | frontend/src/app/crossword/CrosswordUtils.tsx:104-137 | one outer pass either leaves the crossword unchanged or appends exactly one entry, the upper-cased word with its own clue, keeping all earlier entries |
| CrosswordUtils.AddWordPlacesOrDrops | frontend/src/app/crossword/CrosswordUtils.tsx:104-137 | an appended word fitted the grid before and is written along its span; the word is dropped exactly when no candidate and no across slot fits |
| CrosswordUtils.Start | frontend/src/app/crossword/CrosswordUtils.tsx:90-101 | the first word, upper-cased, is recorded across at row 12, column 12 - len/2, with its clue |
| CrosswordUtils.BuildUpTo | frontend/src/app/crossword/CrosswordUtils.tsx:86-138 | after n inputs there are between 1 and n placed words, and the first is the centred first input |
| CrosswordUtils.Generate | frontend/src/app/crossword/CrosswordUtils.tsx:86-140 | the result reads back every placed word, has between 1 and len(words) entries, and starts with the centred first word |
| CrosswordUtils.OverlapStep | frontend/src/app/crossword/CrosswordUtils.tsx:110-121 | at the inner loop's break, placing the candidate is exactly the specified step |
| CrosswordUtils.FallbackStep | frontend/src/app/crossword/CrosswordUtils.tsx:125-136 | at the fallback's break the specified step places the word there; when the scan is exhausted the step changes nothing |
| CrosswordUtils.AddNextWord | frontend/src/app/crossword/CrosswordUtils.tsx:104-137 | one outer iteration on the array and the placed list yields exactly the specified step |
| CrosswordUtils.GenerateCrossword | frontend/src/app/crossword/CrosswordUtils.tsx:86-140 | the returned array and word list are exactly those of the specification Generate |
| CrosswordUtils.AddWordKeepsConsistent | frontend/src/app/crossword/CrosswordUtils.tsx:104-137 | a pass keeps every placed word in the grid and readable, so there are no letter conflicts |
| CrosswordUtils.StartConsistent | frontend/src/app/crossword/CrosswordUtils.tsx:94-101 | the first word alone reads back where it was recorded |
| CrosswordUtils.BuildConsistent | frontend/src/app/crossword/CrosswordUtils.tsx:86-138 | after every prefix of the input, every placed word lies in the grid and reads back |
| CrosswordUtils.EmbedsAppend | frontend/src/app/crossword/CrosswordUtils.tsx:118 | appending a later input's word and clue extends an order-preserving embedding |
| CrosswordUtils.AddWordEmbeds | frontend/src/app/crossword/CrosswordUtils.tsx:104-137 | a pass over input i keeps the placed list an order-preserving subsequence of the upper-cased inputs with their clues |
| CrosswordUtils.Origins | frontend/src/app/crossword/CrosswordUtils.tsx:86-140 | the placed list is an order-preserving subsequence of the upper-cased inputs, each with its own clue |
| CrosswordUtils.CatThenCar | frontend/src/app/crossword/CrosswordUtils.tsx:90-122 | "CAT" then "CAR" gives CAT across at (12, 11) and CAR down at (12, 11) |
| CrosswordUtils.DisjointSecondWordAtCorner | frontend/src/app/crossword/CrosswordUtils.tsx:124-137 | a second word sharing no letter with the first goes across at (0, 0) |
| CrosswordService.Crossing | backend/app/services/crossword_service.py:76-89 | the candidate for a letter pair is perpendicular to the placed word and puts letter i of the new word on letter j of the placed word |
| CrosswordService.FirstViable | backend/app/services/crossword_service.py:71-95 | the first pair (i over the new word, j over the placed word) with equal letters whose start lies in the grid and whose candidate fits, with none such before it; none exactly when no such pair exists |
| CrosswordService.FirstViableFound | backend/app/services/crossword_service.py:71-95 | when the scan reaches a viable pair, that pair is the first viable one |
| CrosswordService.Choose | backend/app/services/crossword_service.py:63-111 | whatever position is chosen starts in the grid and fits the word there |
| CrosswordService.ChooseFirstCrossing | backend/app/services/crossword_service.py:68-100 | the first placed word, in placement order, with a viable pair wins, at its first viable pair |
| CrosswordService.ChooseFallback | backend/app/services/crossword_service.py:102-111 | when no pair is viable, the word goes down at the first row-major slot that fits, or nowhere |
| CrosswordService.ChooseNone | backend/app/services/crossword_service.py:63-111 | nothing is chosen exactly when no pair is viable and no down slot fits |
| CrosswordService.Commit | backend/app/services/crossword_service.py:36-54 | writing a fitting word and appending its record keeps the grid 10 by 10 |
| CrosswordService.AddWord | backend/app/services/crossword_service.py:63-111 | one pass either leaves the build unchanged or appends exactly one record carrying the word, keeping all earlier records |
| CrosswordService.AddWordPlacesOrDrops | backend/app/services/crossword_service.py:63-111 | an appended word starts in the grid, fitted before, and is written along its span; the word is dropped exactly when no pair is viable and no down slot fits |
| CrosswordService.Start | backend/app/services/crossword_service.py:56-60 | the first word is recorded across at row 5, column (10 - len) // 2 |
| CrosswordService.BuildUpTo | backend/app/services/crossword_service.py:56-111 | after n inputs there are between 1 and n placements, and the first is the centred first word |
| CrosswordService.Generate | backend/app/services/crossword_service.py:56-111 | the grid reads back every placement, there are between 1 and len(words) placements, and the first is the centred first word |
| CrosswordService.CrossingStep | backend/app/services/crossword_service.py:76-95 | at the inner loop's break, placing the crossing is exactly the specified step |
| CrosswordService.FallbackStep | backend/app/services/crossword_service.py:102-111 | at the fallback's break the specified step places the word there; when the scan is exhausted the step changes nothing |
| CrosswordService.RenderCell | backend/app/services/crossword_service.py:118-129 | a cell is a block, with no letter and no input, exactly when it is blank; otherwise it carries its one letter and input "" |
| CrosswordService.RenderRow | backend/app/services/crossword_service.py:116-129 | a rendered row is as long as the grid row |
| CrosswordService.RenderGrid | backend/app/services/crossword_service.py:114-130 | the output grid has the grid's dimensions, and each output cell is the rendering of the grid cell at the same position |
| CrosswordService.RenderRoundTrip | backend/app/services/crossword_service.py:114-130 | the rendered grid determines the grid: reading the letters back gives the grid exactly |
| CrosswordService.Builder.constructor | backend/app/services/crossword_service.py:16-18 | a 10 by 10 grid of blank cells and no placements |
| CrosswordService.Builder.CanPlaceHorizontal | backend/app/services/crossword_service.py:20-26 | for a start in the grid: false when the word runs past column 10, otherwise true exactly when each cell of the span is blank or holds the word's letter |
| CrosswordService.Builder.CanPlaceVertical | backend/app/services/crossword_service.py:28-34 | the same test down a column |
| CrosswordService.Builder.PlaceHorizontal | backend/app/services/crossword_service.py:36-44 | writes exactly the span and appends exactly one across record; earlier records are unchanged |
| CrosswordService.Builder.PlaceVertical | backend/app/services/crossword_service.py:46-54 | writes exactly the span and appends exactly one down record; earlier records are unchanged |
| CrosswordService.Builder.TryPair | backend/app/services/crossword_service.py:76-95 | one letter pair: the crossing is placed exactly when its start is in the grid and it fits, and nothing changes otherwise |
| CrosswordService.Builder.CrossWith | backend/app/services/crossword_service.py:71-98 | the double loop over one placed word places the crossing of its first viable pair, or changes nothing when there is none |
| CrosswordService.Builder.PlaceDownAnywhere | backend/app/services/crossword_service.py:103-111 | the fallback places the word down at the first row-major fitting slot, or changes nothing when there is none |
| CrosswordService.Builder.AddNextWord | backend/app/services/crossword_service.py:63-111 | one outer iteration turns the builder's state into exactly the specified step |
| CrosswordService.Builder.Output | backend/app/services/crossword_service.py:114-130 | the conversion loop yields the rendering of the current grid |
| CrosswordService.GenerateCrossword | backend/app/services/crossword_service.py:1-135 | the returned grid and placements are the rendering and the placements of the specification Generate |
| CrosswordService.AddWordKeepsConsistent | backend/app/services/crossword_service.py:63-111 | a pass keeps every placement in the grid and readable |
| CrosswordService.StartConsistent | backend/app/services/crossword_service.py:56-60 | the first word alone reads back where it was recorded |
| CrosswordService.BuildConsistent | backend/app/services/crossword_service.py:56-111 | after every prefix of the input, every placement lies in the grid and reads back, so there are no letter conflicts |
| CrosswordService.EmbedsAppend | backend/app/services/crossword_service.py:39-54 | appending a later input's word extends an order-preserving embedding |
| CrosswordService.AddWordEmbeds | backend/app/services/crossword_service.py:63-111 | a pass over input i keeps the placements an order-preserving subsequence of the input words |
| CrosswordService.Origins | backend/app/services/crossword_service.py:56-111 | the placements are an order-preserving subsequence of the input words |
| CrosswordService.OriginsFirstAfter | backend/app/services/crossword_service.py:63-111 | whether a word is placed depends only on the grid so far and the word, so each placed word comes from the first input after the previous placed one that carries its word, and every input dropped since the last placement would still be dropped |
| CrosswordService.CatThenCar | backend/app/services/crossword_service.py:56-85 | "CAT" then "CAR" gives CAT across at (5, 3) and CAR down at (5, 3) |
| CrosswordService.LongWordIsDropped | backend/app/services/crossword_service.py:63-111 | a word longer than 10 letters fits nowhere and is dropped |
| CrosswordApi.Format | backend/app/api/crossword.py:27-33 | one entry per row, in query order, each the upper-cased word with the row's definition as its clue |
| CrosswordApi.FormatIsUpper | backend/app/api/crossword.py:27-33 | every formatted word is upper case, and formatting formatted words changes nothing |
| CrosswordApi.ClueDirectionNames | backend/app/api/crossword.py:44 | the lower-cased directions are "across" and "down" |
| CrosswordApi.Clues | backend/app/api/crossword.py:40-49 | there are min(len(formatted), len(placements)) clues |
| CrosswordApi.AssembleClues | backend/app/api/crossword.py:40-49 | the clue loop builds exactly that zipped list |
| CrosswordApi.CrosswordToday | backend/app/api/crossword.py:24-51 | 404 "No words found" exactly when there are no rows; otherwise the rendered grid of the built crossword and its zipped clue list |
| CrosswordApi.ClueNumbers | backend/app/api/crossword.py:41-43 | clue numbers lie in 1..n and strictly increase, so no two clues share a number |
| CrosswordApi.CluesStartOnPlacedWords | backend/app/api/crossword.py:41-48 | there is one clue per placement; clue k takes its row, column and direction from placement k, and that cell holds the placed word's first letter |
| CrosswordApi.IncreasingFullIsIdentity | backend/app/api/crossword.py:41 | an increasing embedding of n placements into n inputs is the identity |
| CrosswordApi.LowerBoundByIndex | backend/app/api/crossword.py:41 | in an increasing embedding, the k-th placement comes from input k or later |
| CrosswordApi.AnswersMatchWhenNoneDropped | backend/app/api/crossword.py:41-46 | when no input was dropped, clue k's answer is placement k's word and its clue is row k's definition |
| CrosswordApi.DroppedWordMisalignsClues | backend/app/api/crossword.py:41-46 | with the inputs "A", an 11-letter word and "A", clue 2 sits on the second "A" but carries the dropped word's answer and clue |
| CrosswordApi.NextWith | backend/app/api/crossword.py:41 | the first entry at or after a position with a given word, or none when there is none |
| CrosswordApi.MatchOrigins | backend/app/api/crossword.py:41 | pairs each placement, in order, with a later entry carrying its word |
| CrosswordApi.AlignedClues | backend/app/api/crossword.py:40-49 | corrected clue list: clue k is numbered k + 1 and takes its answer, row, column and direction from placement k |
| CrosswordApi.MatchOriginsFirstAfter | backend/app/api/crossword.py:41 | when each origin is the first entry with its word after the previous origin, the greedy pairing returns exactly those origins |
| CrosswordApi.MatchOriginsAreOrigins | backend/app/api/crossword.py:41 | on the builder's own placements the greedy pairing pairs each placement with the entry it was placed from |
| CrosswordApi.MatchOriginsComplete | backend/app/api/crossword.py:41 | the greedy pairing covers every placement whenever the placements embed, in order, into the entries |
| CrosswordApi.MatchOriginsHead | backend/app/api/crossword.py:41 | an entry at the current position carrying the first placement's word is the one paired with it |
| CrosswordApi.MatchOriginsInOrder | backend/app/api/crossword.py:41 | the greedy pairing is the identity when placement k carries entry k's word |
| CrosswordApi.AlignedIsZipInOrder | backend/app/api/crossword.py:40-49 | when placement k carries entry k's word for every k, the corrected list is the zipped list |
| CrosswordApi.AlignedCluesMatchPlacements | backend/app/api/crossword.py:40-49 | the corrected list has one clue per placement; clue k's answer is the word placed k-th and the upper-cased word of the row it was placed from, and its clue text is that row's definition |
| CrosswordApi.AlignedCluesAgreeWhenNoneDropped | backend/app/api/crossword.py:40-49 | when nothing was dropped, the corrected list equals the served one |
| CrosswordApi.CatAndCarNumbers | backend/app/api/crossword.py:40-49 | "CAT" and "CAR" start on the same cell (5, 3) and are numbered 1 across and 2 down |
| CrosswordPage.NormalizeCell | frontend/src/app/crossword/page.tsx:26-31 | every present field is kept; is_block defaults to false and input to "" only where missing, and a missing number stays null |
| CrosswordPage.Normalize | frontend/src/app/crossword/page.tsx:25-32 | the grid keeps its shape and every cell is normalised |
| CrosswordPage.NormalizeIsIdempotent | frontend/src/app/crossword/page.tsx:25-32 | normalising twice is normalising once |
| CrosswordPage.NormalizeServedGrid | frontend/src/app/crossword/page.tsx:25-32 | on the endpoint's grid, every cell ends with input "", no number, is_block true exactly for blank cells, and its letter kept |
| CrosswordPage.SetNumber | frontend/src/app/crossword/page.tsx:36-38 | writing one clue number keeps the grid's shape |
| CrosswordPage.OverlayAll | frontend/src/app/crossword/page.tsx:35-39 | the overlay keeps the grid's shape |
| CrosswordPage.LastStart | frontend/src/app/crossword/page.tsx:35-39 | the number of the last clue starting at the cell (no later clue starts there), or none exactly when no clue starts there |
| CrosswordPage.OverlayAt | frontend/src/app/crossword/page.tsx:35-39 | a cell gets the number of the last clue, in order, starting on it and is otherwise unchanged; clues starting outside the grid change nothing |
| CrosswordPage.OverlayNumbers | frontend/src/app/crossword/page.tsx:35-39 | the forEach loop computes exactly the overlay |
| CrosswordPage.UpdateCell | frontend/src/app/crossword/page.tsx:47-55 | only the input of cell (r, c) becomes val; every other cell and field, and the shape, are unchanged |
| CrosswordPage.UpdateOutsideIsIdentity | frontend/src/app/crossword/page.tsx:47-55 | an update outside the grid changes nothing |
| CrosswordPage.UpdatesCommute | frontend/src/app/crossword/page.tsx:47-55 | updates of distinct cells commute, and a second update of the same cell overrides the first |
| CrosswordPage.FindByNumber | frontend/src/app/crossword/page.tsx:75 | the first clue with the number, or none exactly when no clue has it |
| CrosswordPage.MarkSpan | frontend/src/app/crossword/page.tsx:79-84 | marking a span keeps the grid's shape |
| CrosswordPage.MarkOne | frontend/src/app/crossword/page.tsx:74-84 | marking one result's word keeps the grid's shape |
| CrosswordPage.MarkAll | frontend/src/app/crossword/page.tsx:74-85 | marking all results keeps the grid's shape |
| CrosswordPage.MarkResults | frontend/src/app/crossword/page.tsx:70-85 | the nested forEach loops compute exactly the marking, including its failure |
| CrosswordPage.MarkSpanAt | frontend/src/app/crossword/page.tsx:79-84 | each cell of the span gets the verdict; every other cell is unchanged |
| CrosswordPage.MarkSpanFails | frontend/src/app/crossword/page.tsx:79-84 | the marking throws exactly when some cell of the span is outside the grid |
| CrosswordPage.MarkAllAt | frontend/src/app/crossword/page.tsx:74-85 | a cell ends with the verdict of the last result whose word covers it, and is unchanged when no result's word covers it; results with no matching number change nothing |
| CrosswordPage.MarkAllFails | frontend/src/app/crossword/page.tsx:74-85 | submit throws exactly when the word of some result leaves the grid |
| CrosswordPage.SameShapeEscapes | frontend/src/app/crossword/page.tsx:72-85 | whether a word leaves the grid depends only on the grid's shape, so earlier marks do not change it |
| CrosswordPage.CountCorrect | frontend/src/app/crossword/page.tsx:114-115 | the score never exceeds the number of results |
| CrosswordPage.ScoreExtremes | frontend/src/app/crossword/page.tsx:114-115 | the score is full exactly when every result is correct, and zero exactly when none is |
| CrosswordPage.ScoreAdds | frontend/src/app/crossword/page.tsx:114-115 | the score of two lists of results joined is the sum of their scores |
| CrosswordPage.WithDirection | frontend/src/app/crossword/page.tsx:94-95 | the across (down) list holds only clues with that direction |
| CrosswordPage.FilterKeepsOrder | frontend/src/app/crossword/page.tsx:94-95 | the filter distributes over concatenation, so it keeps the original order |
| CrosswordPage.FilterMembership | frontend/src/app/crossword/page.tsx:94-95 | a clue is in the across (down) list exactly when it is a clue with that direction |
| CrosswordPage.FiltersPartition | frontend/src/app/crossword/page.tsx:94-95 | when every direction is "across" or "down", the two lists together are as long as the clue list |
| CrosswordPage.ServedCluesPartition | frontend/src/app/crossword/page.tsx:94-95 | the clues the endpoint serves split exactly into the across and down lists |

## Left out

- The database query and the random choice of rows (`backend/app/api/crossword.py:14-22`) are not modelled: the vocabulary rows are an input, and `limit` is not modelled.
- The `/crossword/check` endpoint is not part of this model. Its results are an input to the page's marking and score.
- The page's `fetch` calls, React state and rendering are left out. Only the grid transformations are modelled.
- Upper- and lower-casing map only the ASCII letters. Unicode case mapping is not modelled; `Common.Upper` keeps the length of the word, which full Unicode casing does not always do.
- CrosswordUtils.Generate: requires a non-empty input whose first word is at most 25 letters. With an empty input the source fails reading `words[0]`, and with a longer first word it writes outside the array. Neither behaviour is modelled.
- CrosswordService.Generate: requires a non-empty input whose first word is at most 10 letters. With a longer first word the source's negative start column makes Python's indices wrap or overflow. This is not modelled.
- CrosswordApi.CrosswordToday: requires that the first row's word is at most 10 letters, for the same reason.
- CrosswordService.Builder.CanPlaceHorizontal: requires the start to lie in the grid. Every call site in the source checks this first (lines 81, 91, 104-105); what the closures do for other starts is not modelled.
- CrosswordService.Builder.CanPlaceVertical: requires the start to lie in the grid, as above.
- The browser builder's grid is an `array2`. Placed words are values, so aliasing between the `placed` array and later reads is not modelled. The loops over `placed` stop at the first push, so they never see their own appends.
- The browser builder indexes strings by UTF-16 code unit (`CrosswordUtils.tsx:61-82`), so a character outside the Basic Multilingual Plane takes two cells there. The model's words are sequences of whole characters, one cell each, so it does not capture that split.
- The page's JSON cells are values with optional fields. Fields the page does not read or write are not modelled, and a direction other than "across" marks downwards, as the source does.
- When `submit` throws, the model returns the error and no grid. The score, which the source sets before the marking, is modelled separately.

## Findings

| source | as written | input that shows it | evidently intended | confidence | as-written member | corrected member |
|---|---|---|---|---|---|---|
| backend/app/api/crossword.py:41-46 | clue k pairs input row k with placement k, so after a dropped word every later clue carries the answer and definition of a different word | rows "A", "BBBBBBBBBBB" (11 letters, fits nowhere on the 10 by 10 grid) and "A": clue 2 is placed down at (5, 4), where the second "A" lies, but has answer "BBBBBBBBBBB" and clue "second" | each clue takes its answer and definition from the input row its placement came from | not executed; high | CrosswordApi.DroppedWordMisalignsClues | CrosswordApi.AlignedCluesMatchPlacements |
