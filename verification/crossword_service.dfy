/** The server-side crossword builder that the API calls: a 10 by 10 grid of
    strings, the first word across the middle row, each later word crossed
    with the first placed word and the first letter pair (new index outer,
    existing index inner) whose candidate start lies in the grid and fits,
    else the first row-major down slot that fits, else dropped; then the grid
    turned into block and letter cells.

    The source's inner closures share two mutable locals, the grid and the
    placement list; here they are the fields of a `Builder` object whose
    methods are the closures and the loops. Each step is proved equal to the
    functional specification `AddWord`, and the whole build to `Generate`. */
module CrosswordService {
  import opened Common
  import opened GridStore

  /** `SIZE` */
  const Size := 10

  /** One input entry; the builder reads only the word. */
  datatype Entry = Entry(word: string, clue: string)

  /** One `{word, row, col, direction}` record of `placements`. */
  datatype Placement = Placement(word: string, row: int, col: int, direction: Direction)

  /** The `"direction"` string of a placement record. */
  function DirectionLabel(d: Direction): string {
    if d == Across then "ACROSS" else "DOWN"
  }

  /** The builder's state between two words. */
  datatype Build = Build(grid: Grid, placements: seq<Placement>)

  predicate WellFormed(b: Build) {
    IsGrid(b.grid) && |b.grid| == Size
  }

  /** Every placement lies in the grid and reads back along its span. */
  predicate Consistent(b: Build) {
    forall k :: 0 <= k < |b.placements| ==>
      ReadsBack(b.grid, b.placements[k].word, b.placements[k].row, b.placements[k].col, b.placements[k].direction)
  }

  /** The candidate that puts letter i of the new word on letter j of the
      placed word p: down through an across word, across through a down word. */
  function Crossing(p: Placement, w: string, i: int, j: int): (c: Placement)
    ensures c.word == w && c.direction != p.direction
    ensures RowAt(c.row, c.direction, i) == RowAt(p.row, p.direction, j)
    ensures ColAt(c.col, c.direction, i) == ColAt(p.col, p.direction, j)
  {
    if p.direction == Across then Placement(w, p.row - i, p.col + j, Down)
    else Placement(w, p.row + j, p.col - i, Across)
  }

  /** The pair (i, j) passes every test of the intersection loop: the letters
      agree, the candidate start is inside the grid, and the word fits there. */
  predicate Viable(g: Grid, p: Placement, w: string, i: int, j: int) {
    0 <= i < |w| && 0 <= j < |p.word| && w[i] == p.word[j] &&
    var c := Crossing(p, w, i, j);
    InGrid(Size, c.row, c.col) && Fits(g, w, c.row, c.col, c.direction)
  }

  /** The first viable pair at or after (i0, j0), i over the new word (outer
      loop), j over the placed word (inner loop). */
  function FirstViable(g: Grid, p: Placement, w: string, i0: nat, j0: nat): (m: Option<(int, int)>)
    requires j0 <= |p.word|
    ensures m.Some? ==>
      Viable(g, p, w, m.value.0, m.value.1) && !RowMajorBefore(m.value.0, m.value.1, i0, j0)
    ensures m.Some? ==>
      forall i, j ::
        0 <= i < |w| && 0 <= j < |p.word| && !RowMajorBefore(i, j, i0, j0) && RowMajorBefore(i, j, m.value.0, m.value.1)
        ==> !Viable(g, p, w, i, j)
    ensures m.None? ==>
      forall i, j :: 0 <= i < |w| && 0 <= j < |p.word| && !RowMajorBefore(i, j, i0, j0) ==> !Viable(g, p, w, i, j)
    decreases |w| - i0, |p.word| - j0
  {
    if i0 >= |w| then None
    else if j0 == |p.word| then FirstViable(g, p, w, i0 + 1, 0)
    else if Viable(g, p, w, i0, j0) then Some((i0, j0))
    else FirstViable(g, p, w, i0, j0 + 1)
  }

  /** A viable pair reached by the search is the one it returns. */
  lemma FirstViableFound(g: Grid, p: Placement, w: string, i: nat, j: nat)
    requires j < |p.word| && FirstViable(g, p, w, 0, 0) == FirstViable(g, p, w, i, j)
    requires Viable(g, p, w, i, j)
    ensures FirstViable(g, p, w, 0, 0) == Some((i, j))
  {
  }

  /** The placement the outer loop settles on for the word w, scanning the
      placements from e on: the crossing at the first viable pair of the
      first placement that has one; failing that, the first down slot in
      row-major order where w fits; failing that, none. */
  function Choose(g: Grid, ps: seq<Placement>, w: string, e: nat): (p: Option<Placement>)
    requires IsGrid(g) && |g| == Size && e <= |ps|
    ensures p.Some? ==>
      p.value.word == w && InGrid(Size, p.value.row, p.value.col) &&
      Fits(g, w, p.value.row, p.value.col, p.value.direction)
    decreases |ps| - e
  {
    if e == |ps| then
      match FirstFit(g, w, Down, 0, 0)
      case Some((r, c)) => Some(Placement(w, r, c, Down))
      case None => None
    else
      match FirstViable(g, ps[e], w, 0, 0)
      case Some((i, j)) => Some(Crossing(ps[e], w, i, j))
      case None => Choose(g, ps, w, e + 1)
  }

  /** No placement with index in [lo, hi) has a viable pair. */
  ghost predicate NoCrossingIn(g: Grid, ps: seq<Placement>, w: string, lo: nat, hi: nat)
    requires hi <= |ps|
  {
    forall y :: lo <= y < hi ==> FirstViable(g, ps[y], w, 0, 0).None?
  }

  /** No down slot of the grid fits the word. */
  ghost predicate NoDownSlot(g: Grid, w: string) {
    forall r, c :: InGrid(|g|, r, c) ==> !Fits(g, w, r, c, Down)
  }

  /** The first placement (from e on) with a viable pair wins, at its first
      viable pair. */
  lemma {:induction false} ChooseFirstCrossing(g: Grid, ps: seq<Placement>, w: string, e: nat, x: nat)
    requires IsGrid(g) && |g| == Size && e <= x < |ps| && FirstViable(g, ps[x], w, 0, 0).Some?
    requires NoCrossingIn(g, ps, w, e, x)
    ensures var m := FirstViable(g, ps[x], w, 0, 0).value;
      Choose(g, ps, w, e) == Some(Crossing(ps[x], w, m.0, m.1))
    decreases x - e
  {
    if e == x {
      var m := FirstViable(g, ps[x], w, 0, 0).value;
      assert Choose(g, ps, w, x) == Some(Crossing(ps[x], w, m.0, m.1));
    } else {
      assert FirstViable(g, ps[e], w, 0, 0).None?;
      assert NoCrossingIn(g, ps, w, e + 1, x);
      ChooseFirstCrossing(g, ps, w, e + 1, x);
    }
  }

  /** When no placement from e on has a viable pair, the down scan decides. */
  lemma {:induction false} ChooseFallback(g: Grid, ps: seq<Placement>, w: string, e: nat)
    requires IsGrid(g) && |g| == Size && e <= |ps|
    requires NoCrossingIn(g, ps, w, e, |ps|)
    ensures Choose(g, ps, w, e) ==
      match FirstFit(g, w, Down, 0, 0)
      case Some((r, c)) => Some(Placement(w, r, c, Down))
      case None => None
    decreases |ps| - e
  {
    if e < |ps| {
      assert FirstViable(g, ps[e], w, 0, 0).None?;
      assert NoCrossingIn(g, ps, w, e + 1, |ps|);
      ChooseFallback(g, ps, w, e + 1);
    }
  }

  /** Nothing is chosen exactly when no placement from e on has a viable pair
      and no down slot of the grid fits. */
  lemma {:induction false} ChooseNone(g: Grid, ps: seq<Placement>, w: string, e: nat)
    requires IsGrid(g) && |g| == Size && e <= |ps|
    ensures Choose(g, ps, w, e).None? <==> NoCrossingIn(g, ps, w, e, |ps|) && NoDownSlot(g, w)
    decreases |ps| - e
  {
    if e == |ps| {
      FirstFitNone(g, w, Down);
    } else if FirstViable(g, ps[e], w, 0, 0).Some? {
      assert !NoCrossingIn(g, ps, w, e, |ps|);
    } else {
      ChooseNone(g, ps, w, e + 1);
      assert NoCrossingIn(g, ps, w, e, |ps|) == NoCrossingIn(g, ps, w, e + 1, |ps|);
    }
  }

  /** Records a placement that fits: write it into the grid, append it. */
  function Commit(b: Build, p: Placement): (r: Build)
    requires WellFormed(b) && Fits(b.grid, p.word, p.row, p.col, p.direction)
    ensures WellFormed(r)
  {
    Build(Place(b.grid, p.word, p.row, p.col, p.direction), b.placements + [p])
  }

  /** No pair of any placement is viable and no down slot fits. */
  ghost predicate Unplaceable(b: Build, w: string) {
    (forall x, i, j :: 0 <= x < |b.placements| ==> !Viable(b.grid, b.placements[x], w, i, j)) &&
    (forall r, c :: InGrid(|b.grid|, r, c) ==> !Fits(b.grid, w, r, c, Down))
  }

  /** One pass of the `for w in words[1:]` loop. The word is appended at most
      once, as given; where it goes, and that it is dropped only when nothing
      fits, is AddWordPlacesOrDrops. */
  function AddWord(b: Build, w: string): (r: Build)
    requires WellFormed(b)
    ensures WellFormed(r)
    ensures |r.placements| == |b.placements| || |r.placements| == |b.placements| + 1
    ensures |r.placements| == |b.placements| ==> r == b
    ensures |r.placements| == |b.placements| + 1 ==>
      r.placements[..|b.placements|] == b.placements && r.placements[|b.placements|].word == w
  {
    match Choose(b.grid, b.placements, w, 0)
    case Some(p) => Commit(b, p)
    case None => b
  }

  /** A word is placed only where it fits, by writing it into the grid; a
      crossing placement starts inside the grid; the word is dropped exactly
      when no pair of any placement is viable and no down slot fits. */
  lemma AddWordPlacesOrDrops(b: Build, w: string)
    requires WellFormed(b)
    ensures var r := AddWord(b, w);
      |r.placements| == |b.placements| + 1 ==>
        var p := r.placements[|b.placements|];
        InGrid(Size, p.row, p.col) &&
        Fits(b.grid, p.word, p.row, p.col, p.direction) &&
        r.grid == Place(b.grid, p.word, p.row, p.col, p.direction)
    ensures |AddWord(b, w).placements| == |b.placements| <==> Unplaceable(b, w)
  {
    ChooseNone(b.grid, b.placements, w, 0);
    if NoCrossingIn(b.grid, b.placements, w, 0, |b.placements|) {
      forall x, i, j | 0 <= x < |b.placements|
        ensures !Viable(b.grid, b.placements[x], w, i, j)
      {
        assert FirstViable(b.grid, b.placements[x], w, 0, 0).None?;
      }
    }
  }

  /** The first word, across the middle row, centred by floor division. */
  function FirstPlacement(first: string): Placement {
    Placement(first, Size / 2, (Size - |first|) / 2, Across)
  }

  function Start(first: string): (b: Build)
    requires |first| <= Size
    ensures WellFormed(b) && b.placements == [FirstPlacement(first)]
  {
    var p := FirstPlacement(first);
    EmptyGridFits(Size, p.word, p.row, p.col, p.direction);
    Commit(Build(EmptyGrid(Size), []), p)
  }

  /** The state after the first n input entries. */
  function BuildUpTo(words: seq<Entry>, n: nat): (b: Build)
    requires 1 <= n <= |words| && |words[0].word| <= Size
    ensures WellFormed(b) && 1 <= |b.placements| <= n && b.placements[0] == FirstPlacement(words[0].word)
    decreases n
  {
    if n == 1 then
      Start(words[0].word)
    else
      var prev := BuildUpTo(words, n - 1);
      var r := AddWord(prev, words[n - 1].word);
      assert |r.placements| != |prev.placements| ==> r.placements[..|prev.placements|][0] == r.placements[0];
      r
  }

  /** The grid and placements `generate_crossword` ends with: no letter
      conflicts, the first word centred across the middle, and at most one
      placement per input entry. */
  function Generate(words: seq<Entry>): (b: Build)
    requires |words| > 0 && |words[0].word| <= Size
    ensures Consistent(b) && 1 <= |b.placements| <= |words| && b.placements[0] == FirstPlacement(words[0].word)
  {
    BuildConsistent(words, |words|);
    BuildUpTo(words, |words|)
  }

  /** The intersection search settles the step at placement e, pair (i, j). */
  lemma CrossingStep(b: Build, w: string, e: nat, i: int, j: int)
    requires WellFormed(b) && e < |b.placements|
    requires Choose(b.grid, b.placements, w, 0) == Choose(b.grid, b.placements, w, e)
    requires 0 <= i < |w| && 0 <= j < |b.placements[e].word|
    requires FirstViable(b.grid, b.placements[e], w, 0, 0) == FirstViable(b.grid, b.placements[e], w, i, j)
    requires Viable(b.grid, b.placements[e], w, i, j)
    ensures AddWord(b, w) == Commit(b, Crossing(b.placements[e], w, i, j))
  {
  }

  /** With no viable crossing, the down scan settles the step. */
  lemma FallbackStep(b: Build, w: string, r: nat, c: nat)
    requires WellFormed(b) && c <= Size
    requires Choose(b.grid, b.placements, w, 0) == Choose(b.grid, b.placements, w, |b.placements|)
    requires FirstFit(b.grid, w, Down, 0, 0) == FirstFit(b.grid, w, Down, r, c)
    ensures FirstFit(b.grid, w, Down, r, c) == None ==> AddWord(b, w) == b
    ensures r < Size && c < Size && Fits(b.grid, w, r, c, Down) ==>
      AddWord(b, w) == Commit(b, Placement(w, r, c, Down))
  {
  }

  /** One cell of the returned grid: `{"letter", "is_block"}` and, on letter
      cells only, `"input"`. */
  datatype OutCell = OutCell(letter: Option<string>, isBlock: bool, input: Option<string>)

  /** The final processing of one cell: blank becomes a block without letter
      or input, a letter becomes an open cell with that letter and empty input. */
  function RenderCell(c: Cell): (o: OutCell)
    ensures o.isBlock <==> c == Blank
    ensures o.isBlock <==> o.letter.None?
    ensures o.isBlock <==> o.input.None?
    ensures !o.isBlock ==> o.input == Some("") && |o.letter.value| == 1
  {
    match c
    case Blank => OutCell(None, true, None)
    case Letter(ch) => OutCell(Some([ch]), false, Some(""))
  }

  function RenderRow(row: seq<Cell>): (r: seq<OutCell>)
    ensures |r| == |row|
  {
    seq(|row|, j requires 0 <= j < |row| => RenderCell(row[j]))
  }

  /** `output_grid`: the grid, cell by cell, same shape. */
  function RenderGrid(g: Grid): (r: seq<seq<OutCell>>)
    ensures |r| == |g| && forall i :: 0 <= i < |g| ==> |r[i]| == |g[i]|
    ensures forall i, j :: 0 <= i < |g| && 0 <= j < |g[i]| ==> r[i][j] == RenderCell(g[i][j])
  {
    seq(|g|, i requires 0 <= i < |g| => RenderRow(g[i]))
  }

  /** Reading a grid cell back from a returned cell. */
  function UnrenderCell(o: OutCell): Cell {
    if o.isBlock || o.letter.None? || |o.letter.value| == 0 then Blank else Letter(o.letter.value[0])
  }

  function UnrenderGrid(out: seq<seq<OutCell>>): (g: seq<seq<Cell>>)
    ensures |g| == |out|
  {
    seq(|out|, i requires 0 <= i < |out| => seq(|out[i]|, j requires 0 <= j < |out[i]| => UnrenderCell(out[i][j])))
  }

  /** The returned grid loses nothing: the builder's grid can be read back
      from it. */
  lemma RenderRoundTrip(g: Grid)
    ensures UnrenderGrid(RenderGrid(g)) == g
  {
    var u := UnrenderGrid(RenderGrid(g));
    forall i | 0 <= i < |g|
      ensures u[i] == g[i]
    {
      forall j | 0 <= j < |g[i]|
        ensures u[i][j] == g[i][j]
      {
        match g[i][j]
        case Blank =>
        case Letter(ch) => assert RenderGrid(g)[i][j] == OutCell(Some([ch]), false, Some(""));
      }
    }
  }

  /** The mutable state the source's closures share. */
  class Builder {
    var grid: array2<Cell>
    var placements: seq<Placement>
    /** The contents of `grid`, as a value. */
    ghost var cells: Grid

    ghost predicate Valid()
      reads this, grid
    {
      Mirrors(grid, cells) && |cells| == Size
    }

    ghost function State(): Build
      reads this
    {
      Build(cells, placements)
    }

    /** `grid = [["" ...]]`, `placements = []` */
    constructor ()
      ensures Valid() && fresh(grid)
      ensures cells == EmptyGrid(Size) && placements == []
    {
      grid := new Cell[Size, Size]((i, j) => Blank);
      cells := EmptyGrid(Size);
      placements := [];
    }

    /** `can_place_horizontal`: the caller keeps the start in the grid; the
        closure checks the right edge and every cell of the span. */
    method CanPlaceHorizontal(word: string, row: int, col: int) returns (ok: bool)
      requires Valid() && InGrid(Size, row, col)
      ensures ok == Fits(cells, word, row, col, Across)
    {
      if col + |word| > Size {
        assert !InGrid(Size, RowAt(row, Across, |word| - 1), ColAt(col, Across, |word| - 1));
        return false;
      }
      for i := 0 to |word|
        invariant forall k :: 0 <= k < i ==> Accepts(cells[row][col + k], word[k])
      {
        if grid[row, col + i] != Blank && grid[row, col + i] != Letter(word[i]) {
          assert !Accepts(cells[RowAt(row, Across, i)][ColAt(col, Across, i)], word[i]);
          return false;
        }
      }
      return true;
    }

    /** `can_place_vertical`: the same with rows and columns swapped. */
    method CanPlaceVertical(word: string, row: int, col: int) returns (ok: bool)
      requires Valid() && InGrid(Size, row, col)
      ensures ok == Fits(cells, word, row, col, Down)
    {
      if row + |word| > Size {
        assert !InGrid(Size, RowAt(row, Down, |word| - 1), ColAt(col, Down, |word| - 1));
        return false;
      }
      for i := 0 to |word|
        invariant forall k :: 0 <= k < i ==> Accepts(cells[row + k][col], word[k])
      {
        if grid[row + i, col] != Blank && grid[row + i, col] != Letter(word[i]) {
          assert !Accepts(cells[RowAt(row, Down, i)][ColAt(col, Down, i)], word[i]);
          return false;
        }
      }
      return true;
    }

    /** `place_horizontal`: writes the span, appends one across record. */
    method PlaceHorizontal(word: string, row: int, col: int)
      requires Valid() && SpanInGrid(Size, |word|, row, col, Across)
      modifies this, grid
      ensures Valid() && grid == old(grid)
      ensures cells == Place(old(cells), word, row, col, Across)
      ensures placements == old(placements) + [Placement(word, row, col, Across)]
    {
      for i := 0 to |word|
        invariant grid == old(grid) && cells == old(cells) && placements == old(placements)
        invariant Mirrors(grid, Place(cells, word[..i], row, col, Across))
      {
        assert InGrid(Size, RowAt(row, Across, i), ColAt(col, Across, i));
        assert word[..i + 1][..i] == word[..i];
        grid[row, col + i] := Letter(word[i]);
      }
      assert word[..|word|] == word;
      cells := Place(cells, word, row, col, Across);
      placements := placements + [Placement(word, row, col, Across)];
    }

    /** `place_vertical`: writes the span, appends one down record. */
    method PlaceVertical(word: string, row: int, col: int)
      requires Valid() && SpanInGrid(Size, |word|, row, col, Down)
      modifies this, grid
      ensures Valid() && grid == old(grid)
      ensures cells == Place(old(cells), word, row, col, Down)
      ensures placements == old(placements) + [Placement(word, row, col, Down)]
    {
      for i := 0 to |word|
        invariant grid == old(grid) && cells == old(cells) && placements == old(placements)
        invariant Mirrors(grid, Place(cells, word[..i], row, col, Down))
      {
        assert InGrid(Size, RowAt(row, Down, i), ColAt(col, Down, i));
        assert word[..i + 1][..i] == word[..i];
        grid[row + i, col] := Letter(word[i]);
      }
      assert word[..|word|] == word;
      cells := Place(cells, word, row, col, Down);
      placements := placements + [Placement(word, row, col, Down)];
    }

    /** The two inner loops of the intersection search, for one placement p:
        the first viable pair (i, j), if any, is placed. */
    method CrossWith(p: Placement, word: string) returns (placed: bool)
      requires Valid()
      modifies this, grid
      ensures Valid() && grid == old(grid)
      ensures placed <==> FirstViable(old(cells), p, word, 0, 0).Some?
      ensures !placed ==> State() == old(State())
      ensures placed ==>
        var (i, j) := FirstViable(old(cells), p, word, 0, 0).value;
        Viable(old(cells), p, word, i, j) &&
        State() == Commit(old(State()), Crossing(p, word, i, j))
    {
      ghost var before := State();
      placed := false;
      var pw := p.word;
      for i := 0 to |word|
        invariant Valid() && grid == old(grid) && !placed && State() == before
        invariant FirstViable(before.grid, p, word, 0, 0) == FirstViable(before.grid, p, word, i, 0)
      {
        for j := 0 to |pw|
          invariant Valid() && grid == old(grid) && !placed && State() == before
          invariant FirstViable(before.grid, p, word, 0, 0) == FirstViable(before.grid, p, word, i, j)
        {
          if word[i] != pw[j] {
            continue;
          }
          placed := TryPair(p, word, i, j);
          if placed {
            FirstViableFound(before.grid, p, word, i, j);
            return;
          }
        }
      }
    }

    /** The body of the innermost intersection loop for letters that agree:
        the candidate through the placed word, tried if its start is inside
        the grid, and placed if it fits. */
    method TryPair(p: Placement, word: string, i: int, j: int) returns (placed: bool)
      requires Valid() && 0 <= i < |word| && 0 <= j < |p.word| && word[i] == p.word[j]
      modifies this, grid
      ensures Valid() && grid == old(grid)
      ensures placed == Viable(old(cells), p, word, i, j)
      ensures !placed ==> State() == old(State())
      ensures placed ==> State() == Commit(old(State()), Crossing(p, word, i, j))
    {
      placed := false;
      if p.direction == Across {
        var row := p.row - i;
        var col := p.col + j;
        assert Crossing(p, word, i, j) == Placement(word, row, col, Down);
        if 0 <= row < Size && 0 <= col < Size {
          var ok := CanPlaceVertical(word, row, col);
          if ok {
            PlaceVertical(word, row, col);
            placed := true;
          }
        }
      } else {
        var row := p.row + j;
        var col := p.col - i;
        assert Crossing(p, word, i, j) == Placement(word, row, col, Across);
        if 0 <= row < Size && 0 <= col < Size {
          var ok := CanPlaceHorizontal(word, row, col);
          if ok {
            PlaceHorizontal(word, row, col);
            placed := true;
          }
        }
      }
    }

    /** The fallback: the first row-major start where the word fits down. */
    method PlaceDownAnywhere(word: string) returns (placed: bool)
      requires Valid()
      modifies this, grid
      ensures Valid() && grid == old(grid)
      ensures placed <==> FirstFit(old(cells), word, Down, 0, 0).Some?
      ensures !placed ==> State() == old(State())
      ensures placed ==>
        var (r, c) := FirstFit(old(cells), word, Down, 0, 0).value;
        State() == Commit(old(State()), Placement(word, r, c, Down))
    {
      ghost var before := State();
      placed := false;
      for r := 0 to Size
        invariant Valid() && grid == old(grid) && !placed && State() == before
        invariant FirstFit(before.grid, word, Down, 0, 0) == FirstFit(before.grid, word, Down, r, 0)
      {
        for c := 0 to Size
          invariant Valid() && grid == old(grid) && !placed && State() == before
          invariant FirstFit(before.grid, word, Down, 0, 0) == FirstFit(before.grid, word, Down, r, c)
        {
          var ok := CanPlaceVertical(word, r, c);
          if ok {
            PlaceVertical(word, r, c);
            placed := true;
            return;
          }
        }
      }
    }

    /** One pass of the `for w in words[1:]` loop: the intersection search
        over the placements, then the down fallback. */
    method AddNextWord(word: string)
      requires Valid()
      modifies this, grid
      ensures Valid() && grid == old(grid)
      ensures State() == AddWord(old(State()), word)
    {
      ghost var before := State();
      var placed := false;
      var ps := placements;

      for e := 0 to |ps|
        invariant Valid() && grid == old(grid) && !placed && State() == before
        invariant Choose(before.grid, ps, word, 0) == Choose(before.grid, ps, word, e)
      {
        placed := CrossWith(ps[e], word);
        if placed {
          return;
        }
      }
      placed := PlaceDownAnywhere(word);
    }

    /** The final processing loop that builds `output_grid` row by row. */
    method Output() returns (out: seq<seq<OutCell>>)
      requires Valid()
      ensures out == RenderGrid(cells)
    {
      out := [];
      for r := 0 to Size
        invariant |out| == r && forall k :: 0 <= k < r ==> out[k] == RenderRow(cells[k])
      {
        var row := [];
        for c := 0 to Size
          invariant |row| == c && forall k :: 0 <= k < c ==> row[k] == RenderCell(cells[r][k])
        {
          var cell := grid[r, c];
          if cell == Blank {
            row := row + [OutCell(None, true, None)];
          } else {
            row := row + [OutCell(Some([cell.ch]), false, Some(""))];
          }
        }
        assert row == RenderRow(cells[r]);
        out := out + [row];
      }
    }
  }

  /** `generate_crossword`. It reads `words[0]` unguarded and places the first
      word without a check, so it needs a non-empty input whose first word
      fits across the grid. */
  method GenerateCrossword(words: seq<Entry>) returns (output: seq<seq<OutCell>>, placements: seq<Placement>)
    requires |words| > 0 && |words[0].word| <= Size
    ensures output == RenderGrid(Generate(words).grid) && placements == Generate(words).placements
  {
    var b := new Builder();
    var first := words[0].word;
    var startCol := (Size - |first|) / 2;
    var startRow := Size / 2;
    EmptyGridFits(Size, first, startRow, startCol, Across);
    b.PlaceHorizontal(first, startRow, startCol);

    for i := 1 to |words|
      invariant b.Valid() && fresh(b.grid) && b.State() == BuildUpTo(words, i)
    {
      b.AddNextWord(words[i].word);
    }
    output := b.Output();
    placements := b.placements;
  }

  /** Adding a word keeps every placement readable and reads the new one back. */
  lemma AddWordKeepsConsistent(b: Build, w: string)
    requires WellFormed(b) && Consistent(b)
    ensures Consistent(AddWord(b, w))
  {
    var r := AddWord(b, w);
    AddWordPlacesOrDrops(b, w);
    if |r.placements| == |b.placements| + 1 {
      var p := r.placements[|b.placements|];
      forall k | 0 <= k < |r.placements|
        ensures ReadsBack(r.grid, r.placements[k].word, r.placements[k].row, r.placements[k].col, r.placements[k].direction)
      {
        if k < |b.placements| {
          assert r.placements[k] == b.placements[k];
          PlaceKeepsReadsBack(b.grid, p.word, p.row, p.col, p.direction,
                              b.placements[k].word, b.placements[k].row, b.placements[k].col, b.placements[k].direction);
        } else {
          PlaceReadsBack(b.grid, p.word, p.row, p.col, p.direction);
        }
      }
    }
  }

  /** The first word alone reads back where it was placed. */
  lemma StartConsistent(first: string)
    requires |first| <= Size
    ensures Consistent(Start(first))
  {
    var p := FirstPlacement(first);
    EmptyGridFits(Size, p.word, p.row, p.col, p.direction);
    PlaceReadsBack(EmptyGrid(Size), p.word, p.row, p.col, p.direction);
  }

  /** After every prefix of the input, every placement lies in the grid and
      reads back along its span, so no two placements disagree on a shared
      cell. */
  lemma {:induction false} BuildConsistent(words: seq<Entry>, n: nat)
    requires 1 <= n <= |words| && |words[0].word| <= Size
    ensures Consistent(BuildUpTo(words, n))
    decreases n
  {
    if n == 1 {
      StartConsistent(words[0].word);
    } else {
      BuildConsistent(words, n - 1);
      AddWordKeepsConsistent(BuildUpTo(words, n - 1), words[n - 1].word);
    }
  }

  /** `origin` maps each placement to the input entry whose word it carries,
      in increasing order: the placements are an ordered subsequence of the
      input words. */
  predicate Embeds(origin: seq<nat>, ps: seq<Placement>, words: seq<Entry>) {
    |origin| == |ps| &&
    (forall k :: 0 <= k < |origin| ==> origin[k] < |words| && ps[k].word == words[origin[k]].word) &&
    (forall k, l :: 0 <= k < l < |origin| ==> origin[k] < origin[l])
  }

  lemma EmbedsAppend(origin: seq<nat>, ps: seq<Placement>, words: seq<Entry>, p: Placement, i: nat)
    requires Embeds(origin, ps, words) && i < |words|
    requires forall k :: 0 <= k < |origin| ==> origin[k] < i
    requires p.word == words[i].word
    ensures Embeds(origin + [i], ps + [p], words)
  {
  }

  /** The embedding after one more step: the i-th input joins the end of it
      exactly when AddWord places it. */
  function StepOrigin(b: Build, w: string, i: nat, prev: seq<nat>): seq<nat>
    requires WellFormed(b)
  {
    if |AddWord(b, w).placements| == |b.placements| then prev else prev + [i]
  }

  /** Adding the i-th input extends an embedding of the earlier inputs. */
  lemma AddWordEmbeds(b: Build, w: string, words: seq<Entry>, i: nat, prev: seq<nat>)
    requires WellFormed(b) && i < |words| && words[i].word == w
    requires Embeds(prev, b.placements, words) && forall k :: 0 <= k < |prev| ==> prev[k] < i
    ensures Embeds(StepOrigin(b, w, i, prev), AddWord(b, w).placements, words)
    ensures forall k :: 0 <= k < |StepOrigin(b, w, i, prev)| ==> StepOrigin(b, w, i, prev)[k] <= i
  {
    var r := AddWord(b, w);
    if |r.placements| != |b.placements| {
      var p := r.placements[|b.placements|];
      assert r.placements == b.placements + [p];
      EmbedsAppend(prev, b.placements, words, p, i);
    }
  }

  /** Which input entry each placement after n entries came from: the
      placements are an ordered subsequence of those entries' words. */
  ghost function Origins(words: seq<Entry>, n: nat): (origin: seq<nat>)
    requires 1 <= n <= |words| && |words[0].word| <= Size
    ensures Embeds(origin, BuildUpTo(words, n).placements, words)
    ensures forall k :: 0 <= k < |origin| ==> origin[k] < n
    decreases n
  {
    if n == 1 then
      [0]
    else
      var prev := BuildUpTo(words, n - 1);
      var o := Origins(words, n - 1);
      AddWordEmbeds(prev, words[n - 1].word, words, n - 1, o);
      StepOrigin(prev, words[n - 1].word, n - 1, o)
  }

  /** The word `w`, offered next, would be dropped by build `b`. */
  predicate Dropped(b: Build, w: string)
    requires WellFormed(b)
  {
    |AddWord(b, w).placements| == |b.placements|
  }

  /** No entry in positions lo .. hi - 1 has the word `w`. */
  predicate NoneWith(words: seq<Entry>, w: string, lo: nat, hi: nat)
    requires hi <= |words|
  {
    forall i :: lo <= i < hi ==> words[i].word != w
  }

  /** Each origin is the first entry with its word after the previous
      origin (after `from`, for the first one). */
  predicate FirstAfter(origin: seq<nat>, words: seq<Entry>, from: nat)
    requires forall k :: 0 <= k < |origin| ==> origin[k] < |words|
  {
    (origin != [] ==> NoneWith(words, words[origin[0]].word, from, origin[0])) &&
    forall k :: 0 < k < |origin| ==> NoneWith(words, words[origin[k]].word, origin[k - 1] + 1, origin[k])
  }

  /** Placing depends only on the build and the word, and the build does not
      change while entries are dropped; so an entry dropped since the last
      placement cannot share the word of the next entry that is placed. */
  lemma {:induction false} OriginsFirstAfter(words: seq<Entry>, n: nat)
    requires 1 <= n <= |words| && |words[0].word| <= Size
    ensures var o := Origins(words, n);
      o[0] == 0 && FirstAfter(o, words, 0) &&
      forall i :: o[|o| - 1] < i < n ==> Dropped(BuildUpTo(words, n), words[i].word)
    decreases n
  {
    if n > 1 {
      OriginsFirstAfter(words, n - 1);
      var prev := BuildUpTo(words, n - 1);
      var o := Origins(words, n - 1);
      assert BuildUpTo(words, n) == AddWord(prev, words[n - 1].word);
      assert Origins(words, n) == StepOrigin(prev, words[n - 1].word, n - 1, o);
      FirstAfterStep(words, prev, o, n - 1);
    }
  }

  /** One step of `OriginsFirstAfter`: entry i is offered to build `b`. */
  lemma FirstAfterStep(words: seq<Entry>, b: Build, o: seq<nat>, i: nat)
    requires WellFormed(b) && i < |words|
    requires o != [] && o[0] == 0 && forall k :: 0 <= k < |o| ==> o[k] < i
    requires FirstAfter(o, words, 0)
    requires forall l :: o[|o| - 1] < l < i ==> Dropped(b, words[l].word)
    ensures var o' := StepOrigin(b, words[i].word, i, o);
      o'[0] == 0 && (forall k :: 0 <= k < |o'| ==> o'[k] < |words|) && FirstAfter(o', words, 0) &&
      forall l :: o'[|o'| - 1] < l < i + 1 ==> Dropped(AddWord(b, words[i].word), words[l].word)
  {
    var w := words[i].word;
    if Dropped(b, w) {
      assert AddWord(b, w) == b;
    } else {
      var o' := o + [i];
      assert StepOrigin(b, w, i, o) == o';
      assert o'[0] == o[0];
      forall k | 0 < k < |o'|
        ensures NoneWith(words, words[o'[k]].word, o'[k - 1] + 1, o'[k])
      {
        if k < |o| {
          assert o'[k] == o[k] && o'[k - 1] == o[k - 1];
        } else {
          forall l | o[|o| - 1] < l < i
            ensures words[l].word != w
          {
            assert Dropped(b, words[l].word);
          }
        }
      }
    }
  }

  /** "CAT" goes across the middle at (5, 3); "CAR" shares its first letter
      and goes down from the same cell. */
  lemma CatThenCar(catClue: string, carClue: string)
    ensures Generate([Entry("CAT", catClue), Entry("CAR", carClue)]).placements ==
      [Placement("CAT", 5, 3, Across), Placement("CAR", 5, 3, Down)]
  {
    var words := [Entry("CAT", catClue), Entry("CAR", carClue)];
    var b := BuildUpTo(words, 1);
    var p := FirstPlacement("CAT");
    assert p == Placement("CAT", 5, 3, Across);
    EmptyGridFits(Size, p.word, p.row, p.col, p.direction);
    assert b.grid == Place(EmptyGrid(Size), "CAT", 5, 3, Across);
    PlaceAt(EmptyGrid(Size), "CAT", 5, 3, Across, 5, 3);
    PlaceAt(EmptyGrid(Size), "CAT", 5, 3, Across, 6, 3);
    PlaceAt(EmptyGrid(Size), "CAT", 5, 3, Across, 7, 3);
    assert Crossing(p, "CAR", 0, 0) == Placement("CAR", 5, 3, Down);
    assert Fits(b.grid, "CAR", 5, 3, Down);
    assert Viable(b.grid, p, "CAR", 0, 0);
    assert FirstViable(b.grid, p, "CAR", 0, 0) == Some((0, 0));
    assert Choose(b.grid, b.placements, "CAR", 0) == Some(Placement("CAR", 5, 3, Down));
  }

  /** A word longer than the grid is never placed, whatever the state. */
  lemma LongWordIsDropped(b: Build, w: string)
    requires WellFormed(b) && |w| > Size
    ensures AddWord(b, w) == b
  {
    forall x, i, j | 0 <= x < |b.placements|
      ensures !Viable(b.grid, b.placements[x], w, i, j)
    {
      if Viable(b.grid, b.placements[x], w, i, j) {
        var c := Crossing(b.placements[x], w, i, j);
        FitsIsShort(b.grid, w, c.row, c.col, c.direction);
      }
    }
    forall r, c | InGrid(|b.grid|, r, c)
      ensures !Fits(b.grid, w, r, c, Down)
    {
      if Fits(b.grid, w, r, c, Down) {
        FitsIsShort(b.grid, w, r, c, Down);
      }
    }
    AddWordPlacesOrDrops(b, w);
  }
}
