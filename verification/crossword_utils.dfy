/** The browser-side crossword builder: a 25 by 25 grid of strings, the first
    word across the middle, each later word crossed with the first placed word
    whose single overlap candidate fits, else the first row-major across slot
    that fits, else dropped.

    The grid is an `array2` written in place, as the source's `string[][]` is;
    each method that touches it carries a ghost `Grid` value it mirrors, and
    the whole build is proved equal to the functional specification
    `Generate`, about which the build invariants are proved. */
module CrosswordUtils {
  import opened Common
  import opened GridStore

  const GridSize := 25
  /** `Math.floor(GRID_SIZE / 2)` */
  const Mid := GridSize / 2

  /** One input entry: a word and its clue. */
  datatype WordClue = WordClue(word: string, clue: string)

  datatype PlacedWord = PlacedWord(word: string, clue: string, row: int, col: int, direction: Direction)

  /** Where `findOverlapPosition` proposes to put the new word. */
  datatype Candidate = Candidate(row: int, col: int, direction: Direction)

  /** The builder's state between two words: the grid and the placed words. */
  datatype Crossword = Crossword(grid: Grid, words: seq<PlacedWord>)

  predicate WellFormed(s: Crossword) {
    IsGrid(s.grid) && |s.grid| == GridSize
  }

  /** Every placed word lies in the grid and reads back along its span. */
  predicate Consistent(s: Crossword) {
    forall k :: 0 <= k < |s.words| ==>
      ReadsBack(s.grid, s.words[k].word, s.words[k].row, s.words[k].col, s.words[k].direction)
  }

  method CreateEmptyGrid() returns (grid: array2<Cell>)
    ensures fresh(grid) && Mirrors(grid, EmptyGrid(GridSize))
  {
    grid := new Cell[GridSize, GridSize]((i, j) => Blank);
  }

  /** The first pair (i, j) at or after (i0, j0), in lexicographic order, with
      a[i] == b[j]: i ranges over the existing word, j over the new one. */
  function FirstShared(a: string, b: string, i0: nat, j0: nat): (m: Option<(int, int)>)
    requires j0 <= |b|
    ensures m.Some? ==>
      0 <= m.value.0 < |a| && 0 <= m.value.1 < |b| && a[m.value.0] == b[m.value.1] &&
      !RowMajorBefore(m.value.0, m.value.1, i0, j0)
    ensures m.Some? ==>
      forall i, j ::
        0 <= i < |a| && 0 <= j < |b| && !RowMajorBefore(i, j, i0, j0) && RowMajorBefore(i, j, m.value.0, m.value.1)
        ==> a[i] != b[j]
    ensures m.None? ==>
      forall i, j :: 0 <= i < |a| && 0 <= j < |b| && !RowMajorBefore(i, j, i0, j0) ==> a[i] != b[j]
    decreases |a| - i0, |b| - j0
  {
    if i0 >= |a| then None
    else if j0 == |b| then FirstShared(a, b, i0 + 1, 0)
    else if a[i0] == b[j0] then Some((i0, j0))
    else FirstShared(a, b, i0, j0 + 1)
  }

  /** The single candidate `findOverlapPosition` derives from an existing word:
      none when the words share no letter; otherwise the new word runs
      perpendicular to the existing one, with its j-th letter on the existing
      word's i-th cell, for the first shared pair (i, j). */
  function OverlapCandidate(existing: PlacedWord, newWord: string): (r: Option<Candidate>)
    ensures r.None? <==>
      forall i, j :: 0 <= i < |existing.word| && 0 <= j < |newWord| ==> existing.word[i] != newWord[j]
    ensures r.Some? ==> r.value.direction != existing.direction
    ensures r.Some? ==>
      var (i, j) := FirstShared(existing.word, newWord, 0, 0).value;
      RowAt(r.value.row, r.value.direction, j) == RowAt(existing.row, existing.direction, i) &&
      ColAt(r.value.col, r.value.direction, j) == ColAt(existing.col, existing.direction, i)
  {
    match FirstShared(existing.word, newWord, 0, 0)
    case None => None
    case Some((i, j)) =>
      if existing.direction == Across then Some(Candidate(existing.row - j, existing.col + i, Down))
      else Some(Candidate(existing.row + i, existing.col - j, Across))
  }

  /** `findOverlapPosition`. The source also takes the grid, which it never reads. */
  method FindOverlapPosition(existing: PlacedWord, newWord: string) returns (r: Option<Candidate>)
    ensures r == OverlapCandidate(existing, newWord)
  {
    for i := 0 to |existing.word|
      invariant FirstShared(existing.word, newWord, 0, 0) == FirstShared(existing.word, newWord, i, 0)
    {
      for j := 0 to |newWord|
        invariant FirstShared(existing.word, newWord, 0, 0) == FirstShared(existing.word, newWord, i, j)
      {
        if existing.word[i] == newWord[j] {
          if existing.direction == Across {
            return Some(Candidate(existing.row - j, existing.col + i, Down));
          } else {
            return Some(Candidate(existing.row + i, existing.col - j, Across));
          }
        }
      }
    }
    return None;
  }

  /** `canPlaceWord`: every cell of the span is inside the 25 by 25 grid and
      is blank or already holds the letter. */
  method CanPlaceWord(grid: array2<Cell>, ghost g: Grid, word: string, row: int, col: int, direction: Direction)
    returns (ok: bool)
    requires Mirrors(grid, g) && |g| == GridSize
    ensures ok == Fits(g, word, row, col, direction)
  {
    for k := 0 to |word|
      invariant forall k' :: 0 <= k' < k ==>
        InGrid(GridSize, RowAt(row, direction, k'), ColAt(col, direction, k')) &&
        Accepts(g[RowAt(row, direction, k')][ColAt(col, direction, k')], word[k'])
    {
      var r := row + (if direction == Down then k else 0);
      var c := col + (if direction == Across then k else 0);
      assert r == RowAt(row, direction, k) && c == ColAt(col, direction, k);
      if r < 0 || r >= GridSize || c < 0 || c >= GridSize {
        assert !InGrid(|g|, RowAt(row, direction, k), ColAt(col, direction, k));
        return false;
      }
      if grid[r, c] != Blank && grid[r, c] != Letter(word[k]) {
        assert !Accepts(g[RowAt(row, direction, k)][ColAt(col, direction, k)], word[k]);
        return false;
      }
    }
    return true;
  }

  /** `placeWord`: writes the word's letters along its span, nothing else. */
  method PlaceWord(grid: array2<Cell>, ghost g: Grid, word: string, row: int, col: int, direction: Direction)
    requires Mirrors(grid, g) && SpanInGrid(|g|, |word|, row, col, direction)
    modifies grid
    ensures Mirrors(grid, Place(g, word, row, col, direction))
  {
    for k := 0 to |word|
      invariant Mirrors(grid, Place(g, word[..k], row, col, direction))
    {
      var r := row + (if direction == Down then k else 0);
      var c := col + (if direction == Across then k else 0);
      assert InGrid(|g|, RowAt(row, direction, k), ColAt(col, direction, k));
      assert word[..k + 1][..k] == word[..k];
      grid[r, c] := Letter(word[k]);
    }
    assert word[..|word|] == word;
  }

  /** The candidate drawn from `existing` exists and fits the grid. */
  predicate CandidateFits(g: Grid, existing: PlacedWord, w: string) {
    var c := OverlapCandidate(existing, w);
    c.Some? && Fits(g, w, c.value.row, c.value.col, c.value.direction)
  }

  /** The placement the outer loop settles on for the word w with its clue,
      scanning the placed words from e on: the candidate of the first placed
      word whose candidate fits; failing that, the first across slot in
      row-major order where w fits; failing that, none. */
  function Choose(g: Grid, placed: seq<PlacedWord>, w: string, clue: string, e: nat): (p: Option<PlacedWord>)
    requires IsGrid(g) && e <= |placed|
    ensures p.Some? ==>
      p.value.word == w && p.value.clue == clue && Fits(g, w, p.value.row, p.value.col, p.value.direction)
    decreases |placed| - e
  {
    if e == |placed| then
      match FirstFit(g, w, Across, 0, 0)
      case Some((r, c)) => Some(PlacedWord(w, clue, r, c, Across))
      case None => None
    else if CandidateFits(g, placed[e], w) then
      var c := OverlapCandidate(placed[e], w).value;
      Some(PlacedWord(w, clue, c.row, c.col, c.direction))
    else
      Choose(g, placed, w, clue, e + 1)
  }

  /** The first placed word (from e on) whose candidate fits wins. */
  lemma {:induction false} ChooseFirstOverlap(g: Grid, placed: seq<PlacedWord>, w: string, clue: string, e: nat, x: nat)
    requires IsGrid(g) && e <= x < |placed| && CandidateFits(g, placed[x], w)
    requires forall y :: e <= y < x ==> !CandidateFits(g, placed[y], w)
    ensures var c := OverlapCandidate(placed[x], w).value;
      Choose(g, placed, w, clue, e) == Some(PlacedWord(w, clue, c.row, c.col, c.direction))
    decreases x - e
  {
    if e < x {
      ChooseFirstOverlap(g, placed, w, clue, e + 1, x);
    }
  }

  /** When no candidate from e on fits, the fallback scan decides. */
  lemma {:induction false} ChooseFallback(g: Grid, placed: seq<PlacedWord>, w: string, clue: string, e: nat)
    requires IsGrid(g) && e <= |placed|
    requires forall y :: e <= y < |placed| ==> !CandidateFits(g, placed[y], w)
    ensures Choose(g, placed, w, clue, e) ==
      match FirstFit(g, w, Across, 0, 0)
      case Some((r, c)) => Some(PlacedWord(w, clue, r, c, Across))
      case None => None
    decreases |placed| - e
  {
    if e < |placed| {
      ChooseFallback(g, placed, w, clue, e + 1);
    }
  }

  /** No placed word from e on offers a candidate that fits. */
  ghost predicate NoCandidateFrom(g: Grid, placed: seq<PlacedWord>, w: string, e: nat) {
    forall y :: e <= y < |placed| ==> !CandidateFits(g, placed[y], w)
  }

  /** No across slot of the grid fits the word. */
  ghost predicate NoAcrossSlot(g: Grid, w: string) {
    forall r, c :: InGrid(|g|, r, c) ==> !Fits(g, w, r, c, Across)
  }

  /** Nothing is chosen exactly when no candidate from e on fits and no
      across slot of the grid fits. */
  lemma {:induction false} ChooseNone(g: Grid, placed: seq<PlacedWord>, w: string, clue: string, e: nat)
    requires IsGrid(g) && e <= |placed|
    ensures Choose(g, placed, w, clue, e).None? <==> NoCandidateFrom(g, placed, w, e) && NoAcrossSlot(g, w)
    decreases |placed| - e
  {
    if e == |placed| {
      FirstFitNone(g, w, Across);
    } else if CandidateFits(g, placed[e], w) {
      assert !NoCandidateFrom(g, placed, w, e);
    } else {
      ChooseNone(g, placed, w, clue, e + 1);
      assert NoCandidateFrom(g, placed, w, e) == NoCandidateFrom(g, placed, w, e + 1);
    }
  }

  /** Records a placement that fits: write it into the grid, append it. */
  function Commit(s: Crossword, p: PlacedWord): (r: Crossword)
    requires WellFormed(s) && Fits(s.grid, p.word, p.row, p.col, p.direction)
    ensures WellFormed(r)
  {
    Crossword(Place(s.grid, p.word, p.row, p.col, p.direction), s.words + [p])
  }

  /** Neither an overlap candidate nor any across slot fits the word. */
  ghost predicate Unplaceable(s: Crossword, w: string) {
    NoCandidateFrom(s.grid, s.words, w, 0) && NoAcrossSlot(s.grid, w)
  }

  /** One iteration of the outer loop of `generateCrossword`. The word is
      appended at most once, with its upper-cased text and its own clue;
      where it goes, and that it is dropped only when nothing fits, is
      AddWordPlacesOrDrops. */
  function AddWord(s: Crossword, wc: WordClue): (r: Crossword)
    requires WellFormed(s)
    ensures WellFormed(r)
    ensures |r.words| == |s.words| || |r.words| == |s.words| + 1
    ensures |r.words| == |s.words| ==> r == s
    ensures |r.words| == |s.words| + 1 ==>
      r.words[..|s.words|] == s.words &&
      r.words[|s.words|].word == Upper(wc.word) && r.words[|s.words|].clue == wc.clue
  {
    match Choose(s.grid, s.words, Upper(wc.word), wc.clue, 0)
    case Some(p) => Commit(s, p)
    case None => s
  }

  /** A word is placed only where it fits, by writing it into the grid, and
      it is dropped exactly when neither an overlap candidate nor any across
      slot fits. */
  lemma AddWordPlacesOrDrops(s: Crossword, wc: WordClue)
    requires WellFormed(s)
    ensures var r := AddWord(s, wc);
      |r.words| == |s.words| + 1 ==>
        var p := r.words[|s.words|];
        Fits(s.grid, p.word, p.row, p.col, p.direction) &&
        r.grid == Place(s.grid, p.word, p.row, p.col, p.direction)
    ensures |AddWord(s, wc).words| == |s.words| <==> Unplaceable(s, Upper(wc.word))
  {
    ChooseNone(s.grid, s.words, Upper(wc.word), wc.clue, 0);
  }

  /** The first word, placed across the middle row, centred. */
  function FirstPlacement(first: WordClue): PlacedWord {
    PlacedWord(Upper(first.word), first.clue, Mid, Mid - |first.word| / 2, Across)
  }

  function Start(first: WordClue): (s: Crossword)
    requires |first.word| <= GridSize
    ensures WellFormed(s) && s.words == [FirstPlacement(first)]
  {
    var p := FirstPlacement(first);
    EmptyGridFits(GridSize, p.word, p.row, p.col, p.direction);
    Commit(Crossword(EmptyGrid(GridSize), []), p)
  }

  /** The state after the first n input words. */
  function BuildUpTo(words: seq<WordClue>, n: nat): (s: Crossword)
    requires 1 <= n <= |words| && |words[0].word| <= GridSize
    ensures WellFormed(s) && 1 <= |s.words| <= n && s.words[0] == FirstPlacement(words[0])
    decreases n
  {
    if n == 1 then
      Start(words[0])
    else
      var prev := BuildUpTo(words, n - 1);
      var r := AddWord(prev, words[n - 1]);
      assert |r.words| != |prev.words| ==> r.words[..|prev.words|][0] == r.words[0];
      r
  }

  /** What `generateCrossword` returns. */
  function Generate(words: seq<WordClue>): (s: Crossword)
    requires |words| > 0 && |words[0].word| <= GridSize
    ensures Consistent(s) && 1 <= |s.words| <= |words| && s.words[0] == FirstPlacement(words[0])
  {
    BuildConsistent(words, |words|);
    BuildUpTo(words, |words|)
  }

  /** The overlap search settles the step: its winner is what AddWord commits. */
  lemma OverlapStep(s: Crossword, wc: WordClue, e: nat)
    requires WellFormed(s) && e < |s.words|
    requires Choose(s.grid, s.words, Upper(wc.word), wc.clue, 0) == Choose(s.grid, s.words, Upper(wc.word), wc.clue, e)
    requires CandidateFits(s.grid, s.words[e], Upper(wc.word))
    ensures var c := OverlapCandidate(s.words[e], Upper(wc.word)).value;
      AddWord(s, wc) == Commit(s, PlacedWord(Upper(wc.word), wc.clue, c.row, c.col, c.direction))
  {
  }

  /** With no overlap, the fallback scan settles the step. */
  lemma FallbackStep(s: Crossword, wc: WordClue, r: nat, c: nat)
    requires WellFormed(s) && c <= GridSize
    requires Choose(s.grid, s.words, Upper(wc.word), wc.clue, 0) == Choose(s.grid, s.words, Upper(wc.word), wc.clue, |s.words|)
    requires FirstFit(s.grid, Upper(wc.word), Across, 0, 0) == FirstFit(s.grid, Upper(wc.word), Across, r, c)
    ensures FirstFit(s.grid, Upper(wc.word), Across, r, c) == None ==> AddWord(s, wc) == s
    ensures r < GridSize && c < GridSize && Fits(s.grid, Upper(wc.word), r, c, Across) ==>
      AddWord(s, wc) == Commit(s, PlacedWord(Upper(wc.word), wc.clue, r, c, Across))
  {
  }

  /** One pass of the outer loop of `generateCrossword`: the overlap search
      over the placed words, then the fallback scan. */
  method AddNextWord(grid: array2<Cell>, ghost g: Grid, placed: seq<PlacedWord>, wc: WordClue)
    returns (ghost g': Grid, placed': seq<PlacedWord>)
    requires Mirrors(grid, g) && WellFormed(Crossword(g, placed))
    modifies grid
    ensures Mirrors(grid, g') && Crossword(g', placed') == AddWord(Crossword(g, placed), wc)
  {
    ghost var before := Crossword(g, placed);
    g', placed' := g, placed;
    var newWord := Upper(wc.word);
    var newClue := wc.clue;
    var placedSuccessfully := false;

    for e := 0 to |placed|
      invariant !placedSuccessfully && Mirrors(grid, g') && Crossword(g', placed') == before
      invariant Choose(g, placed, newWord, newClue, 0) == Choose(g, placed, newWord, newClue, e)
    {
      var existing := placed[e];
      var overlap := FindOverlapPosition(existing, newWord);
      if overlap.None? {
        continue;
      }
      var row, col, direction := overlap.value.row, overlap.value.col, overlap.value.direction;
      var fits := CanPlaceWord(grid, g, newWord, row, col, direction);
      if fits {
        OverlapStep(before, wc, e);
        PlaceWord(grid, g, newWord, row, col, direction);
        g' := Place(g, newWord, row, col, direction);
        placed' := placed + [PlacedWord(newWord, newClue, row, col, direction)];
        placedSuccessfully := true;
        break;
      }
    }
    if placedSuccessfully {
      return;
    }

    for r := 0 to GridSize
      invariant !placedSuccessfully && Mirrors(grid, g') && Crossword(g', placed') == before
      invariant FirstFit(g, newWord, Across, 0, 0) == FirstFit(g, newWord, Across, r, 0)
    {
      for c := 0 to GridSize
        invariant !placedSuccessfully && Mirrors(grid, g') && Crossword(g', placed') == before
        invariant FirstFit(g, newWord, Across, 0, 0) == FirstFit(g, newWord, Across, r, c)
      {
        var ok := CanPlaceWord(grid, g, newWord, r, c, Across);
        if ok {
          FallbackStep(before, wc, r, c);
          PlaceWord(grid, g, newWord, r, c, Across);
          g' := Place(g, newWord, r, c, Across);
          placed' := placed + [PlacedWord(newWord, newClue, r, c, Across)];
          placedSuccessfully := true;
          break;
        }
      }
      if placedSuccessfully {
        break;
      }
    }
    if !placedSuccessfully {
      FallbackStep(before, wc, GridSize, 0);
    }
  }

  /** `generateCrossword`. The source reads `words[0]` unguarded and places
      the first word without a check, so it needs a non-empty input whose
      first word fits across the grid. */
  method GenerateCrossword(words: seq<WordClue>) returns (grid: array2<Cell>, placed: seq<PlacedWord>)
    requires |words| > 0 && |words[0].word| <= GridSize
    ensures Mirrors(grid, Generate(words).grid) && placed == Generate(words).words
  {
    grid := CreateEmptyGrid();
    ghost var g := EmptyGrid(GridSize);
    placed := [];

    var first := words[0];
    var mid := GridSize / 2;
    var firstWord := Upper(first.word);
    EmptyGridFits(GridSize, firstWord, mid, mid - |first.word| / 2, Across);
    PlaceWord(grid, g, firstWord, mid, mid - |first.word| / 2, Across);
    g := Place(g, firstWord, mid, mid - |first.word| / 2, Across);
    placed := placed + [PlacedWord(firstWord, first.clue, mid, mid - |first.word| / 2, Across)];

    for i := 1 to |words|
      invariant Mirrors(grid, g) && Crossword(g, placed) == BuildUpTo(words, i)
    {
      g, placed := AddNextWord(grid, g, placed, words[i]);
    }
  }

  /** Adding a word keeps every placed word readable and reads the new one back. */
  lemma AddWordKeepsConsistent(s: Crossword, wc: WordClue)
    requires WellFormed(s) && Consistent(s)
    ensures Consistent(AddWord(s, wc))
  {
    var r := AddWord(s, wc);
    AddWordPlacesOrDrops(s, wc);
    if |r.words| == |s.words| + 1 {
      var p := r.words[|s.words|];
      forall k | 0 <= k < |r.words|
        ensures ReadsBack(r.grid, r.words[k].word, r.words[k].row, r.words[k].col, r.words[k].direction)
      {
        if k < |s.words| {
          assert r.words[k] == s.words[k];
          PlaceKeepsReadsBack(s.grid, p.word, p.row, p.col, p.direction,
                              s.words[k].word, s.words[k].row, s.words[k].col, s.words[k].direction);
        } else {
          PlaceReadsBack(s.grid, p.word, p.row, p.col, p.direction);
        }
      }
    }
  }

  /** The first word alone reads back where it was placed. */
  lemma StartConsistent(first: WordClue)
    requires |first.word| <= GridSize
    ensures Consistent(Start(first))
  {
    var p := FirstPlacement(first);
    EmptyGridFits(GridSize, p.word, p.row, p.col, p.direction);
    PlaceReadsBack(EmptyGrid(GridSize), p.word, p.row, p.col, p.direction);
  }

  /** After every prefix of the input, every placed word lies in the grid and
      reads back along its span, so no two placed words disagree on a shared
      cell. */
  lemma {:induction false} BuildConsistent(words: seq<WordClue>, n: nat)
    requires 1 <= n <= |words| && |words[0].word| <= GridSize
    ensures Consistent(BuildUpTo(words, n))
    decreases n
  {
    if n == 1 {
      StartConsistent(words[0]);
    } else {
      BuildConsistent(words, n - 1);
      AddWordKeepsConsistent(BuildUpTo(words, n - 1), words[n - 1]);
    }
  }

  /** `origin` maps each placed word to the input it came from, in increasing
      order: the placed words are an ordered subsequence of the upper-cased
      inputs, each with its own clue. */
  predicate Embeds(origin: seq<nat>, placed: seq<PlacedWord>, words: seq<WordClue>) {
    |origin| == |placed| &&
    (forall k :: 0 <= k < |origin| ==>
      origin[k] < |words| &&
      placed[k].word == Upper(words[origin[k]].word) && placed[k].clue == words[origin[k]].clue) &&
    (forall k, l :: 0 <= k < l < |origin| ==> origin[k] < origin[l])
  }

  /** The embedding after one more step: the i-th input joins the end of it
      exactly when AddWord places it. */
  function StepOrigin(s: Crossword, wc: WordClue, i: nat, prev: seq<nat>): seq<nat>
    requires WellFormed(s)
  {
    if |AddWord(s, wc).words| == |s.words| then prev else prev + [i]
  }

  /** Adding the i-th input extends an embedding of the earlier inputs. */
  lemma AddWordEmbeds(s: Crossword, wc: WordClue, words: seq<WordClue>, i: nat, prev: seq<nat>)
    requires WellFormed(s) && i < |words| && words[i] == wc
    requires Embeds(prev, s.words, words) && forall k :: 0 <= k < |prev| ==> prev[k] < i
    ensures Embeds(StepOrigin(s, wc, i, prev), AddWord(s, wc).words, words)
    ensures forall k :: 0 <= k < |StepOrigin(s, wc, i, prev)| ==> StepOrigin(s, wc, i, prev)[k] <= i
  {
    var r := AddWord(s, wc);
    if |r.words| != |s.words| {
      var p := r.words[|s.words|];
      assert r.words == s.words + [p];
      EmbedsAppend(prev, s.words, words, p, i);
    }
  }

  /** Which input each of the words placed after n inputs came from: the
      placed words are an ordered subsequence of those inputs, upper-cased,
      each with its own clue. */
  ghost function Origins(words: seq<WordClue>, n: nat): (origin: seq<nat>)
    requires 1 <= n <= |words| && |words[0].word| <= GridSize
    ensures Embeds(origin, BuildUpTo(words, n).words, words)
    ensures forall k :: 0 <= k < |origin| ==> origin[k] < n
    decreases n
  {
    if n == 1 then
      [0]
    else
      var prev := BuildUpTo(words, n - 1);
      var o := Origins(words, n - 1);
      AddWordEmbeds(prev, words[n - 1], words, n - 1, o);
      StepOrigin(prev, words[n - 1], n - 1, o)
  }

  lemma EmbedsAppend(origin: seq<nat>, placed: seq<PlacedWord>, words: seq<WordClue>, p: PlacedWord, i: nat)
    requires Embeds(origin, placed, words) && i < |words|
    requires forall k :: 0 <= k < |origin| ==> origin[k] < i
    requires p.word == Upper(words[i].word) && p.clue == words[i].clue
    ensures Embeds(origin + [i], placed + [p], words)
  {
  }

  /** "CAT" goes across the middle at (12, 11); "CAR" shares its first letter
      and goes down through that cell, starting on the same cell. */
  lemma CatThenCar(catClue: string, carClue: string)
    ensures Generate([WordClue("CAT", catClue), WordClue("CAR", carClue)]).words ==
      [PlacedWord("CAT", catClue, 12, 11, Across), PlacedWord("CAR", carClue, 12, 11, Down)]
  {
    var words := [WordClue("CAT", catClue), WordClue("CAR", carClue)];
    assert IsUpperWord("CAT") && IsUpperWord("CAR");
    UpperIsIdempotent("CAT");
    UpperIsIdempotent("CAR");
    var s := BuildUpTo(words, 1);
    var p := FirstPlacement(words[0]);
    assert p == PlacedWord("CAT", catClue, 12, 11, Across);
    EmptyGridFits(GridSize, p.word, p.row, p.col, p.direction);
    assert s.grid == Place(EmptyGrid(GridSize), "CAT", 12, 11, Across);
    assert OverlapCandidate(p, "CAR") == Some(Candidate(12, 11, Down));
    PlaceAt(EmptyGrid(GridSize), "CAT", 12, 11, Across, 12, 11);
    PlaceAt(EmptyGrid(GridSize), "CAT", 12, 11, Across, 13, 11);
    PlaceAt(EmptyGrid(GridSize), "CAT", 12, 11, Across, 14, 11);
    assert Fits(s.grid, "CAR", 12, 11, Down);
    assert CandidateFits(s.grid, s.words[0], "CAR");
  }

  /** A second word sharing no letter with the first falls back to the top
      left corner, across, since row 0 is empty. */
  lemma DisjointSecondWordAtCorner(first: WordClue, second: WordClue)
    requires |first.word| <= GridSize && |second.word| <= GridSize
    requires forall i, j :: 0 <= i < |first.word| && 0 <= j < |second.word| ==>
      Upper(first.word)[i] != Upper(second.word)[j]
    ensures Generate([first, second]).words ==
      [FirstPlacement(first), PlacedWord(Upper(second.word), second.clue, 0, 0, Across)]
  {
    var words := [first, second];
    var s := BuildUpTo(words, 1);
    var p := FirstPlacement(first);
    var w := Upper(second.word);
    EmptyGridFits(GridSize, p.word, p.row, p.col, p.direction);
    assert OverlapCandidate(p, w) == None;
    assert !CandidateFits(s.grid, s.words[0], w);
    assert Choose(s.grid, s.words, w, second.clue, 0) == Choose(s.grid, s.words, w, second.clue, 1);
    forall k | 0 <= k < |w|
      ensures s.grid[0][k] == Blank
    {
      PlaceAt(EmptyGrid(GridSize), p.word, p.row, p.col, p.direction, 0, k);
    }
    assert Fits(s.grid, w, 0, 0, Across);
  }
}
