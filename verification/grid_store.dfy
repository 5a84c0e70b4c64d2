/** The value model of a crossword grid shared by both builders: a square
    matrix of cells, each either blank (the empty string in the source) or a
    single letter, together with the span of cells a word occupies, the
    "does it fit" test, the write of a whole word, and the row-major scan for
    the first position where a word fits. */
module GridStore {
  import opened Common

  /** One grid cell: `""` in the source, or a one-character string. */
  datatype Cell = Blank | Letter(ch: char)

  datatype Direction = Across | Down

  /** The contents of a grid, row by row. */
  type Grid = seq<seq<Cell>>

  /** Every row is as long as there are rows. */
  predicate IsGrid(g: Grid) {
    forall i :: 0 <= i < |g| ==> |g[i]| == |g|
  }

  /** The grid the builders start from: n by n, every cell blank. */
  function EmptyGrid(n: nat): (g: Grid)
    ensures IsGrid(g) && |g| == n
    ensures forall i, j :: 0 <= i < n && 0 <= j < n ==> g[i][j] == Blank
  {
    seq(n, i => seq(n, j => Blank))
  }

  predicate InGrid(n: int, r: int, c: int) {
    0 <= r < n && 0 <= c < n
  }

  /** Row and column of the k-th letter of a word that starts at (row, col). */
  function RowAt(row: int, d: Direction, k: int): int {
    row + (if d == Down then k else 0)
  }

  function ColAt(col: int, d: Direction, k: int): int {
    col + (if d == Across then k else 0)
  }

  /** Every cell of a span of `len` letters lies in an n by n grid. */
  predicate SpanInGrid(n: int, len: int, row: int, col: int, d: Direction) {
    forall k :: 0 <= k < len ==> InGrid(n, RowAt(row, d, k), ColAt(col, d, k))
  }

  /** A cell accepts a letter when it is blank or already holds that letter. */
  predicate Accepts(c: Cell, ch: char) {
    c == Blank || c == Letter(ch)
  }

  /** The word can be written at (row, col) in direction d: every cell of its
      span is inside the grid and accepts the letter that would go there. */
  predicate Fits(g: Grid, w: string, row: int, col: int, d: Direction) {
    IsGrid(g) &&
    forall k :: 0 <= k < |w| ==>
      InGrid(|g|, RowAt(row, d, k), ColAt(col, d, k)) &&
      Accepts(g[RowAt(row, d, k)][ColAt(col, d, k)], w[k])
  }

  /** The grid holds the word along its span: what a placed word must read back. */
  predicate ReadsBack(g: Grid, w: string, row: int, col: int, d: Direction) {
    IsGrid(g) &&
    forall k :: 0 <= k < |w| ==>
      InGrid(|g|, RowAt(row, d, k), ColAt(col, d, k)) &&
      g[RowAt(row, d, k)][ColAt(col, d, k)] == Letter(w[k])
  }

  /** The position of cell (i, j) along a span starting at (row, col). */
  function Offset(row: int, col: int, d: Direction, i: int, j: int): int {
    if d == Across then j - col else i - row
  }

  /** Cell (i, j) is one of the `len` cells of the span. */
  predicate Covers(row: int, col: int, d: Direction, len: int, i: int, j: int) {
    var k := Offset(row, col, d, i, j);
    0 <= k < len && RowAt(row, d, k) == i && ColAt(col, d, k) == j
  }

  /** Writing a word letter by letter along its span (the source's place loop). */
  function Place(g: Grid, w: string, row: int, col: int, d: Direction): (r: Grid)
    requires IsGrid(g) && SpanInGrid(|g|, |w|, row, col, d)
    ensures IsGrid(r) && |r| == |g|
    decreases |w|
  {
    if |w| == 0 then g
    else
      var k := |w| - 1;
      var prev := Place(g, w[..k], row, col, d);
      var i, j := RowAt(row, d, k), ColAt(col, d, k);
      prev[i := prev[i][j := Letter(w[k])]]
  }

  /** Place changes exactly the cells of the span, each to its letter. */
  lemma {:induction false} PlaceAt(g: Grid, w: string, row: int, col: int, d: Direction, i: int, j: int)
    requires IsGrid(g) && SpanInGrid(|g|, |w|, row, col, d)
    requires InGrid(|g|, i, j)
    ensures Place(g, w, row, col, d)[i][j] ==
      if Covers(row, col, d, |w|, i, j) then Letter(w[Offset(row, col, d, i, j)]) else g[i][j]
  {
    if |w| > 0 {
      var k := |w| - 1;
      PlaceAt(g, w[..k], row, col, d, i, j);
    }
  }

  /** After Place, the grid reads the word back along its span. */
  lemma PlaceReadsBack(g: Grid, w: string, row: int, col: int, d: Direction)
    requires IsGrid(g) && SpanInGrid(|g|, |w|, row, col, d)
    ensures ReadsBack(Place(g, w, row, col, d), w, row, col, d)
  {
    forall k | 0 <= k < |w|
      ensures Place(g, w, row, col, d)[RowAt(row, d, k)][ColAt(col, d, k)] == Letter(w[k])
    {
      PlaceAt(g, w, row, col, d, RowAt(row, d, k), ColAt(col, d, k));
    }
  }

  /** Placing a word that fits never changes the letter of a non-blank cell. */
  lemma PlaceKeepsLetters(g: Grid, w: string, row: int, col: int, d: Direction, i: int, j: int)
    requires Fits(g, w, row, col, d) && InGrid(|g|, i, j) && g[i][j].Letter?
    ensures Place(g, w, row, col, d)[i][j] == g[i][j]
  {
    PlaceAt(g, w, row, col, d, i, j);
    if Covers(row, col, d, |w|, i, j) {
      var k := Offset(row, col, d, i, j);
      assert Accepts(g[RowAt(row, d, k)][ColAt(col, d, k)], w[k]);
    }
  }

  /** Placing a word that fits keeps every earlier word readable: this is the
      step of the build invariant "no letter conflicts". */
  lemma PlaceKeepsReadsBack(g: Grid, w: string, row: int, col: int, d: Direction,
                            v: string, vrow: int, vcol: int, vd: Direction)
    requires Fits(g, w, row, col, d) && ReadsBack(g, v, vrow, vcol, vd)
    ensures ReadsBack(Place(g, w, row, col, d), v, vrow, vcol, vd)
  {
    forall k | 0 <= k < |v|
      ensures Place(g, w, row, col, d)[RowAt(vrow, vd, k)][ColAt(vcol, vd, k)] == Letter(v[k])
    {
      PlaceKeepsLetters(g, w, row, col, d, RowAt(vrow, vd, k), ColAt(vcol, vd, k));
    }
  }

  /** Two words that both read back agree on every cell they share. */
  lemma SharedCellsAgree(g: Grid, v: string, vrow: int, vcol: int, vd: Direction, a: int,
                         w: string, wrow: int, wcol: int, wd: Direction, b: int)
    requires ReadsBack(g, v, vrow, vcol, vd) && ReadsBack(g, w, wrow, wcol, wd)
    requires 0 <= a < |v| && 0 <= b < |w|
    requires RowAt(vrow, vd, a) == RowAt(wrow, wd, b) && ColAt(vcol, vd, a) == ColAt(wcol, wd, b)
    ensures v[a] == w[b]
  {
  }

  /** A word that fits is no longer than the grid is wide. */
  lemma FitsIsShort(g: Grid, w: string, row: int, col: int, d: Direction)
    requires Fits(g, w, row, col, d)
    ensures |w| <= |g|
  {
    if |w| > 0 {
      var last := |w| - 1;
      assert InGrid(|g|, RowAt(row, d, 0), ColAt(col, d, 0));
      assert InGrid(|g|, RowAt(row, d, last), ColAt(col, d, last));
    }
  }

  /** On an empty grid a word fits exactly where its span is inside the grid. */
  lemma EmptyGridFits(n: nat, w: string, row: int, col: int, d: Direction)
    ensures Fits(EmptyGrid(n), w, row, col, d) <==> SpanInGrid(n, |w|, row, col, d)
  {
  }

  /** Row-major order of grid positions. */
  predicate RowMajorBefore(r1: int, c1: int, r2: int, c2: int) {
    r1 < r2 || (r1 == r2 && c1 < c2)
  }

  /** The fallback scan: the first position at or after (r, c) in row-major
      order where the word fits in direction d. */
  function FirstFit(g: Grid, w: string, d: Direction, r: nat, c: nat): (p: Option<(int, int)>)
    requires IsGrid(g) && c <= |g|
    ensures p.Some? ==>
      InGrid(|g|, p.value.0, p.value.1) && Fits(g, w, p.value.0, p.value.1, d) &&
      !RowMajorBefore(p.value.0, p.value.1, r, c)
    ensures p.Some? ==>
      forall qr, qc ::
        InGrid(|g|, qr, qc) && !RowMajorBefore(qr, qc, r, c) && RowMajorBefore(qr, qc, p.value.0, p.value.1)
        ==> !Fits(g, w, qr, qc, d)
    ensures p.None? ==>
      forall qr, qc :: InGrid(|g|, qr, qc) && !RowMajorBefore(qr, qc, r, c) ==> !Fits(g, w, qr, qc, d)
    decreases |g| - r, |g| - c
  {
    if r >= |g| then None
    else if c == |g| then FirstFit(g, w, d, r + 1, 0)
    else if Fits(g, w, r, c, d) then Some((r, c))
    else FirstFit(g, w, d, r, c + 1)
  }

  /** The scan from the top left finds nothing exactly when the word fits
      nowhere in the grid. */
  lemma FirstFitNone(g: Grid, w: string, d: Direction)
    requires IsGrid(g)
    ensures FirstFit(g, w, d, 0, 0).None? <==> forall r, c :: InGrid(|g|, r, c) ==> !Fits(g, w, r, c, d)
  {
    var p := FirstFit(g, w, d, 0, 0);
    if p.Some? {
      assert InGrid(|g|, p.value.0, p.value.1) && Fits(g, w, p.value.0, p.value.1, d);
    }
  }

  /** An array holds exactly the cells of a grid value. */
  ghost predicate Mirrors(a: array2<Cell>, g: Grid)
    reads a
  {
    IsGrid(g) && a.Length0 == |g| && a.Length1 == |g| &&
    forall i, j :: 0 <= i < |g| && 0 <= j < |g| ==> a[i, j] == g[i][j]
  }
}
